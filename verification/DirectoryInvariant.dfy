/** The cross-table invariant of the directory: indexes are exact inverses of the records, the
    address index holds exactly the addresses of the live accounts and the catch-alls of the live
    domains, and every operation keeps it so. */
module DirectoryInvariant {
  import opened Common
  import opened Bytes
  import opened Text
  import opened DirectoryTables

  // ----- The invariant -----

  predicate GoodName(name: string)
  {
    name != "" && Trimmed(name) && Lower(name) == name
  }

  predicate GoodLocal(local: string)
  {
    local != "" && Trimmed(local) && Lower(local) == local && local[0] != '@'
  }

  /** An alias with something in front of its '@', so that it cannot pass for a catch-all. */
  predicate GoodAlias(alias: string)
  {
    Trim(alias) != "" && Trim(alias)[0] != '@'
  }

  predicate GoodAccount(t: Tables, a: Account)
  {
    && GoodLocal(a.localPart)
    && a.domainId in t.domains
    && forall alias | alias in a.aliases :: GoodAlias(alias)
  }

  predicate RecordsGood(t: Tables)
  {
    && (forall id | id in t.domains :: t.domains[id].id == id && GoodName(t.domains[id].name))
    && (forall x | x in t.accounts :: t.accounts[x].id == x && GoodAccount(t, t.accounts[x]))
  }

  predicate NamesExact(t: Tables)
  {
    && (forall id | id in t.domains :: t.domains[id].name in t.names && t.names[t.domains[id].name] == id)
    && (forall n | n in t.names :: t.names[n] in t.domains && t.domains[t.names[n]].name == n)
  }

  function Slot(a: Account): (u64, string)
  {
    (a.domainId, a.localPart)
  }

  predicate LocalsExact(t: Tables)
  {
    && (forall x | x in t.accounts :: Slot(t.accounts[x]) in t.locals && t.locals[Slot(t.accounts[x])] == x)
    && (forall s | s in t.locals :: t.locals[s] in t.accounts && Slot(t.accounts[t.locals[s]]) == s)
  }

  /** The entries that are not catch-alls are exactly the addresses of the live accounts, each
      pointing at its owner. */
  ghost predicate AddressesExact(t: Tables)
  {
    && (forall x, a | Owns(t, x, a) :: a in t.entries && t.entries[a] == AccountEntry(a, x))
    && (forall a | a in t.entries && !IsCatchAll(a) ::
          t.entries[a].target.ToAccount? && Owns(t, t.entries[a].target.accountId, a))
  }

  predicate HasCatchAll(t: Tables, name: string, target: Target)
  {
    && name in t.names
    && t.names[name] in t.domains
    && var d := t.domains[t.names[name]];
       d.catchAll.Some? && target == ToAccount(d.catchAll.value)
  }

  /** The entry "@n" exists exactly when the domain named n has a catch-all account, its target. */
  predicate CatchAllsExact(t: Tables)
  {
    && (forall id | id in t.domains && t.domains[id].catchAll.Some? ::
          var a := "@" + t.domains[id].name;
          a in t.entries && t.entries[a] == AccountEntry(a, t.domains[id].catchAll.value))
    && (forall a | a in t.entries && IsCatchAll(a) ::
          t.entries[a].address == a && HasCatchAll(t, a[1..], t.entries[a].target))
  }

  ghost predicate Inv(t: Tables)
  {
    RecordsGood(t) && NamesExact(t) && LocalsExact(t) && AddressesExact(t) && CatchAllsExact(t)
  }

  // ----- Facts about addresses -----

  lemma PrimaryForm(local: string, name: string)
    requires GoodLocal(local) && GoodName(name)
    ensures Primary(local, name) == local + "@" + name
    ensures !IsCatchAll(Primary(local, name))
  {
    NormalizeAddress(local, name);
  }

  lemma GlueInjective(l: string, n: string, l': string, n': string)
    requires l + "@" + n == l' + "@" + n'
    ensures l == l' <==> n == n'
  {
    var s, s' := l + "@" + n, l' + "@" + n';
    if l == l' {
      assert s[|l| + 1..] == n && s'[|l'| + 1..] == n';
    }
    if n == n' {
      assert |l| == |l'|;
      assert s[..|l|] == l && s'[..|l'|] == l';
    }
  }

  lemma PrimaryInjective(local: string, name: string, local': string, name': string)
    requires GoodLocal(local) && GoodName(name) && GoodLocal(local') && GoodName(name')
    requires Primary(local, name) == Primary(local', name')
    ensures local == local' <==> name == name'
  {
    PrimaryForm(local, name);
    PrimaryForm(local', name');
    GlueInjective(local, name, local', name');
  }

  lemma CatchAllForm(name: string)
    requires GoodName(name)
    ensures CatchAllAddress(name) == "@" + name
    ensures IsCatchAll(CatchAllAddress(name)) && CatchAllAddress(name)[1..] == name
  {
    NormalizeFixed(name);
    NormalizeCatchAll(name);
  }

  lemma AddressesOrdinary(t: Tables, a: Account, address: string)
    requires forall id | id in t.domains :: GoodName(t.domains[id].name)
    requires GoodAccount(t, a)
    requires address in Addresses(t, a)
    ensures address != "" && !IsCatchAll(address)
  {
    PrimaryForm(a.localPart, t.domains[a.domainId].name);
    if address != Primary(a.localPart, t.domains[a.domainId].name) {
      var alias :| alias in a.aliases && Trim(alias) != "" && address == Normalize(alias);
      assert address[0] == LowerChar(Trim(alias)[0]);
    }
  }

  lemma AddressesFrame(t: Tables, t': Tables, a: Account)
    requires a.domainId in t.domains && a.domainId in t'.domains
    requires t.domains[a.domainId].name == t'.domains[a.domainId].name
    ensures Addresses(t, a) == Addresses(t', a)
  {
  }

  /** No two accounts ever share an address. */
  lemma OwnerUnique(t: Tables, x: u64, y: u64, address: string)
    requires AddressesExact(t)
    requires Owns(t, x, address) && Owns(t, y, address)
    ensures x == y
  {
    assert t.entries[address] == AccountEntry(address, x);
  }

  // ----- Frames: what an operation must leave alone -----

  /** Two tables agree on ownership when their accounts agree and keep their domains' names. */
  predicate SameOwnership(t: Tables, t': Tables)
  {
    && t'.accounts == t.accounts
    && forall x | x in t.accounts ::
         && t.accounts[x].domainId in t.domains
         && t.accounts[x].domainId in t'.domains
         && t.domains[t.accounts[x].domainId].name == t'.domains[t.accounts[x].domainId].name
  }

  lemma OwnershipKept(t: Tables, t': Tables)
    requires SameOwnership(t, t')
    ensures forall x, a :: Owns(t', x, a) <==> Owns(t, x, a)
  {
    forall x, a ensures Owns(t', x, a) <==> Owns(t, x, a) {
      if x in t.accounts { AddressesFrame(t, t', t.accounts[x]); }
    }
  }

  predicate SameAt(e: map<string, AddressEntry>, e': map<string, AddressEntry>, a: string)
  {
    (a in e <==> a in e') && (a in e ==> e[a] == e'[a])
  }

  ghost predicate SameOrdinary(e: map<string, AddressEntry>, e': map<string, AddressEntry>)
  {
    forall a | !IsCatchAll(a) :: SameAt(e, e', a)
  }

  ghost predicate SameCatchAlls(e: map<string, AddressEntry>, e': map<string, AddressEntry>)
  {
    forall a | IsCatchAll(a) :: SameAt(e, e', a)
  }

  lemma OwnedOrdinary(t: Tables, x: u64, a: string)
    requires RecordsGood(t) && Owns(t, x, a)
    ensures a != "" && !IsCatchAll(a)
  {
    AddressesOrdinary(t, t.accounts[x], a);
  }

  lemma AddressesFramed(t: Tables, t': Tables)
    requires RecordsGood(t) && AddressesExact(t)
    requires SameOwnership(t, t') && SameOrdinary(t.entries, t'.entries)
    ensures AddressesExact(t')
  {
    OwnershipKept(t, t');
    forall x, a | Owns(t', x, a) ensures a in t'.entries && t'.entries[a] == AccountEntry(a, x) {
      OwnedOrdinary(t, x, a);
      assert SameAt(t.entries, t'.entries, a);
    }
    forall a | a in t'.entries && !IsCatchAll(a)
      ensures t'.entries[a].target.ToAccount? && Owns(t', t'.entries[a].target.accountId, a)
    {
      assert SameAt(t.entries, t'.entries, a);
    }
  }

  lemma CatchAllsFramed(t: Tables, t': Tables)
    requires CatchAllsExact(t)
    requires t'.domains == t.domains && t'.names == t.names
    requires SameCatchAlls(t.entries, t'.entries)
    ensures CatchAllsExact(t')
  {
    forall id | id in t'.domains && t'.domains[id].catchAll.Some?
      ensures var a := "@" + t'.domains[id].name;
              a in t'.entries && t'.entries[a] == AccountEntry(a, t'.domains[id].catchAll.value)
    {
      var a := "@" + t'.domains[id].name;
      assert IsCatchAll(a);
      assert SameAt(t.entries, t'.entries, a);
    }
    forall a | a in t'.entries && IsCatchAll(a)
      ensures t'.entries[a].address == a && HasCatchAll(t', a[1..], t'.entries[a].target)
    {
      assert SameAt(t.entries, t'.entries, a);
    }
  }

  // ----- Domains: create and delete -----

  function AddDomain(t: Tables, d: Domain): Tables
  {
    t.(domains := t.domains[d.id := d], names := t.names[d.name := d.id])
  }

  lemma AddDomainRecords(t: Tables, d: Domain)
    requires RecordsGood(t) && d.id !in t.domains && GoodName(d.name)
    ensures RecordsGood(AddDomain(t, d))
  {
  }

  lemma AddDomainNames(t: Tables, d: Domain)
    requires NamesExact(t) && d.id !in t.domains && d.name !in t.names
    ensures NamesExact(AddDomain(t, d))
  {
  }

  lemma AddDomainCatchAlls(t: Tables, d: Domain)
    requires NamesExact(t) && CatchAllsExact(t)
    requires d.id !in t.domains && d.name !in t.names && d.catchAll.None?
    ensures CatchAllsExact(AddDomain(t, d))
  {
  }

  lemma NewNameGood(name: string)
    requires NormalizeName(name) != "" && !EndsBlank(NormalizeName(name))
    ensures GoodName(NormalizeName(name))
  {
  }

  lemma AddDomainKeeps(t: Tables, d: Domain)
    requires Inv(t) && d.id !in t.domains && d.name !in t.names && d.catchAll.None? && GoodName(d.name)
    ensures Inv(AddDomain(t, d))
  {
    AddDomainRecords(t, d);
    AddDomainNames(t, d);
    AddressesFramed(t, AddDomain(t, d));
    AddDomainCatchAlls(t, d);
  }

  lemma DomainCreateKeeps(t: Tables, name: string, aliases: seq<string>, id: u64, createdAt: nat)
    requires Inv(t)
    requires id !in t.domains
    requires !EndsBlank(NormalizeName(name))
    requires DomainCreate(t, name, aliases, id, createdAt).Ok?
    ensures Inv(DomainCreate(t, name, aliases, id, createdAt).value)
  {
    NewNameGood(name);
    AddDomainKeeps(t, NewDomain(name, aliases, id, createdAt));
  }

  lemma DomainDeleteRecords(t: Tables, id: u64)
    requires RecordsGood(t) && DomainDelete(t, id).Ok?
    ensures RecordsGood(DomainDelete(t, id).value)
    ensures SameOwnership(t, DomainDelete(t, id).value)
  {
    forall x | x in t.accounts ensures t.accounts[x].domainId != id {
      assert !InDomain(t, x, id);
    }
  }

  lemma DomainDeleteNames(t: Tables, id: u64)
    requires NamesExact(t) && DomainDelete(t, id).Ok?
    ensures NamesExact(DomainDelete(t, id).value)
  {
  }

  /** The catch-all row a domain ought to have. */
  function OwnRow(d: Domain): Option<(string, u64)>
  {
    if d.catchAll.Some? then Some(("@" + d.name, d.catchAll.value)) else None
  }

  function OwnKey(d: Domain): Option<string>
  {
    if d.catchAll.Some? then Some("@" + d.name) else None
  }

  lemma CatchAllRowForm(d: Domain)
    requires GoodName(d.name)
    ensures CatchAllKey(d) == OwnKey(d) && CatchAllRow(d) == OwnRow(d)
  {
    CatchAllForm(d.name);
  }

  lemma MovedOrdinary(e: map<string, AddressEntry>, gone: Option<string>, put: Option<(string, u64)>)
    requires gone.Some? ==> IsCatchAll(gone.value)
    requires put.Some? ==> IsCatchAll(put.value.0)
    ensures SameOrdinary(e, Moved(e, gone, put))
  {
  }

  lemma DroppedCatchAlls(t: Tables, id: u64)
    requires NamesExact(t) && CatchAllsExact(t) && id in t.domains
    ensures CatchAllsExact(t.(domains := t.domains - {id}, names := t.names - {t.domains[id].name},
                              entries := Moved(t.entries, OwnKey(t.domains[id]), None)))
  {
    var t' := t.(domains := t.domains - {id}, names := t.names - {t.domains[id].name},
                 entries := Moved(t.entries, OwnKey(t.domains[id]), None));
    forall id' | id' in t'.domains && t'.domains[id'].catchAll.Some?
      ensures "@" + t'.domains[id'].name in t'.entries
    {
      assert ("@" + t'.domains[id'].name)[1..] == t'.domains[id'].name;
    }
    forall a | a in t'.entries && IsCatchAll(a) ensures HasCatchAll(t', a[1..], t'.entries[a].target) {
      assert a == "@" + a[1..];
    }
  }

  lemma DomainDeleteKeeps(t: Tables, id: u64)
    requires Inv(t)
    requires DomainDelete(t, id).Ok?
    ensures Inv(DomainDelete(t, id).value)
  {
    DomainDeleteRecords(t, id);
    DomainDeleteNames(t, id);
    var d := t.domains[id];
    CatchAllRowForm(d);
    DroppedCatchAlls(t, id);
    MovedOrdinary(t.entries, OwnKey(d), None);
    AddressesFramed(t, DomainDelete(t, id).value);
  }

  // ----- Domains: update and rename -----

  /** The names table after a domain changes its name from one to another. */
  function RenamedNames(names: map<string, u64>, before: string, after: string, id: u64): map<string, u64>
  {
    if before == after then names else (names - {before})[after := id]
  }

  predicate NameFree(t: Tables, d: Domain)
  {
    d.name !in t.names || t.names[d.name] == d.id
  }

  function Rename(t: Tables, d: Domain, e: map<string, AddressEntry>): Tables
    requires d.id in t.domains
  {
    t.(domains := t.domains[d.id := d],
       names := RenamedNames(t.names, t.domains[d.id].name, d.name, d.id),
       entries := Moved(e, OwnKey(t.domains[d.id]), OwnRow(d)))
  }

  lemma RenameRecords(t: Tables, d: Domain, e: map<string, AddressEntry>)
    requires RecordsGood(t) && d.id in t.domains && GoodName(d.name)
    ensures RecordsGood(Rename(t, d, e))
  {
  }

  lemma RenameNames(t: Tables, d: Domain, e: map<string, AddressEntry>)
    requires NamesExact(t) && d.id in t.domains && NameFree(t, d)
    ensures NamesExact(Rename(t, d, e))
  {
  }

  lemma RenameCatchAlls(t: Tables, d: Domain, e: map<string, AddressEntry>)
    requires NamesExact(t) && CatchAllsExact(t)
    requires d.id in t.domains && NameFree(t, d)
    requires SameCatchAlls(t.entries, e)
    ensures CatchAllsExact(Rename(t, d, e))
  {
    var t' := Rename(t, d, e);
    forall id | id in t'.domains && t'.domains[id].catchAll.Some?
      ensures var a := "@" + t'.domains[id].name;
              a in t'.entries && t'.entries[a] == AccountEntry(a, t'.domains[id].catchAll.value)
    {
      var a := "@" + t'.domains[id].name;
      assert a[1..] == t'.domains[id].name;
      assert SameAt(t.entries, e, a);
    }
    forall a | a in t'.entries && IsCatchAll(a)
      ensures t'.entries[a].address == a && HasCatchAll(t', a[1..], t'.entries[a].target)
    {
      assert a == "@" + a[1..];
      assert SameAt(t.entries, e, a);
    }
  }

  lemma PrimaryOwned(t: Tables, x: u64)
    requires RecordsGood(t) && x in t.accounts
    ensures Owns(t, x, Primary(t.accounts[x].localPart, t.domains[t.accounts[x].domainId].name))
  {
  }

  /** Within one domain a primary names one account, whatever the domain is called. */
  lemma PrimaryUnique(t: Tables, x: u64, y: u64, domain: u64, name: string)
    requires RecordsGood(t) && LocalsExact(t) && GoodName(name)
    requires InDomain(t, x, domain) && InDomain(t, y, domain)
    requires Primary(t.accounts[x].localPart, name) == Primary(t.accounts[y].localPart, name)
    ensures x == y
  {
    PrimaryInjective(t.accounts[x].localPart, name, t.accounts[y].localPart, name);
    assert Slot(t.accounts[x]) == Slot(t.accounts[y]);
  }

  /** A free new primary that is already in the index belongs to the account it is for. */
  lemma FreePrimary(t: Tables, y: u64, domain: u64, name: string)
    requires !PrimaryTaken(t, domain, name) && InDomain(t, y, domain)
    ensures var a := Primary(t.accounts[y].localPart, name);
            a in t.entries ==> t.entries[a].AccountId() == Some(y)
  {
  }

  /** No account of the domain also lists, as an alias, the primary a rename is about to retire. */
  predicate RetiresOnlyPrimaries(t: Tables, domain: u64, oldName: string)
  {
    forall x | x in t.accounts && InDomain(t, x, domain) ::
      Primary(t.accounts[x].localPart, oldName) !in AliasAddresses(t.accounts[x])
  }

  /** The looped removals and settings never undo one another: no retired primary is a new one. */
  lemma RetiredNotNew(t: Tables, domain: u64, name: string, x: u64)
    requires Inv(t) && domain in t.domains && GoodName(name) && name != t.domains[domain].name
    requires !PrimaryTaken(t, domain, name) && InDomain(t, x, domain)
    ensures Primary(t.accounts[x].localPart, t.domains[domain].name) !in Primaries(t, domain, name)
  {
    var retired := Primary(t.accounts[x].localPart, t.domains[domain].name);
    if retired in Primaries(t, domain, name) {
      var y := PrimaryOwner(t, domain, name, retired);
      PrimaryOwned(t, x);
      FreePrimary(t, y, domain, name);
      PrimaryInjective(t.accounts[x].localPart, t.domains[domain].name, t.accounts[y].localPart, name);
    }
  }

  lemma RekeyedCatchAlls(t: Tables, domain: u64, oldName: string, newName: string)
    requires RecordsGood(t) && GoodName(oldName) && GoodName(newName)
    ensures SameCatchAlls(t.entries, Rekeyed(t, domain, oldName, newName))
  {
    forall x | x in t.accounts && InDomain(t, x, domain)
      ensures !IsCatchAll(Primary(t.accounts[x].localPart, oldName))
      ensures !IsCatchAll(Primary(t.accounts[x].localPart, newName))
    {
      PrimaryForm(t.accounts[x].localPart, oldName);
      PrimaryForm(t.accounts[x].localPart, newName);
    }
  }

  ghost predicate Renaming(t: Tables, d: Domain)
  {
    && Inv(t) && d.id in t.domains && GoodName(d.name)
    && d.name != t.domains[d.id].name
    && !PrimaryTaken(t, d.id, d.name)
  }

  /** The tables between the two halves of a rename, before the catch-all moves. */
  ghost function Rekey(t: Tables, d: Domain): Tables
    requires d.id in t.domains
  {
    t.(domains := t.domains[d.id := d], entries := Rekeyed(t, d.id, t.domains[d.id].name, d.name))
  }

  lemma PrimaryRowOf(t: Tables, domain: u64, name: string, x: u64)
    requires RecordsGood(t) && LocalsExact(t) && GoodName(name) && InDomain(t, x, domain)
    ensures var a := Primary(t.accounts[x].localPart, name);
            a in PrimaryRows(t, domain, name) && PrimaryRows(t, domain, name)[a] == x
  {
    var a := Primary(t.accounts[x].localPart, name);
    assert a in Primaries(t, domain, name);
    PrimaryUnique(t, x, PrimaryOwner(t, domain, name, a), domain, name);
  }

  lemma NewPrimaryEntry(t: Tables, d: Domain, x: u64)
    requires Renaming(t, d) && InDomain(t, x, d.id)
    ensures var a := Primary(t.accounts[x].localPart, d.name);
            a in Rekey(t, d).entries && Rekey(t, d).entries[a] == AccountEntry(a, x)
  {
    PrimaryRowOf(t, d.id, d.name, x);
  }

  lemma RetiredPrimaryGone(t: Tables, d: Domain, x: u64)
    requires Renaming(t, d) && InDomain(t, x, d.id)
    ensures Primary(t.accounts[x].localPart, t.domains[d.id].name) !in Rekey(t, d).entries
  {
    RetiredNotNew(t, d.id, d.name, x);
  }

  /** An address an account owned before, and that is not its retired primary, still resolves to it. */
  lemma KeptEntry(t: Tables, d: Domain, x: u64, a: string)
    requires Renaming(t, d) && Owns(t, x, a)
    requires InDomain(t, x, d.id) ==> a != Primary(t.accounts[x].localPart, t.domains[d.id].name)
    ensures a in Rekey(t, d).entries && Rekey(t, d).entries[a] == AccountEntry(a, x)
  {
    if a in Primaries(t, d.id, d.name) {
      var y := PrimaryOwner(t, d.id, d.name, a);
      FreePrimary(t, y, d.id, d.name);
    } else if a in Primaries(t, d.id, t.domains[d.id].name) {
      var y := PrimaryOwner(t, d.id, t.domains[d.id].name, a);
      PrimaryOwned(t, y);
      OwnerUnique(t, x, y, a);
    }
  }

  lemma OwnsAfterRekey(t: Tables, d: Domain, x: u64, a: string)
    requires Renaming(t, d) && x in t.accounts
    ensures Owns(Rekey(t, d), x, a) <==>
            if InDomain(t, x, d.id) then
              a in AliasAddresses(t.accounts[x]) || a == Primary(t.accounts[x].localPart, d.name)
            else Owns(t, x, a)
  {
  }

  lemma RekeyExact(t: Tables, d: Domain)
    requires Renaming(t, d) && RetiresOnlyPrimaries(t, d.id, t.domains[d.id].name)
    ensures AddressesExact(Rekey(t, d))
  {
    var t' := Rekey(t, d);
    forall x, a | Owns(t', x, a) ensures a in t'.entries && t'.entries[a] == AccountEntry(a, x) {
      OwnsAfterRekey(t, d, x, a);
      if InDomain(t, x, d.id) && a == Primary(t.accounts[x].localPart, d.name) {
        NewPrimaryEntry(t, d, x);
      } else {
        KeptEntry(t, d, x, a);
      }
    }
    forall a | a in t'.entries && !IsCatchAll(a)
      ensures t'.entries[a].target.ToAccount? && Owns(t', t'.entries[a].target.accountId, a)
    {
      if a in Primaries(t, d.id, d.name) {
        OwnsAfterRekey(t, d, PrimaryOwner(t, d.id, d.name, a), a);
      } else {
        OwnsAfterRekey(t, d, t.entries[a].target.accountId, a);
      }
    }
  }

  /** A rename leaves the index exact if and only if it retires nothing but primaries: removing the
      old primary also removes an alias that spells it, and no later operation restores it. */
  lemma RekeyExactIff(t: Tables, d: Domain)
    requires Renaming(t, d)
    ensures AddressesExact(Rekey(t, d)) <==> RetiresOnlyPrimaries(t, d.id, t.domains[d.id].name)
  {
    var name := t.domains[d.id].name;
    if RetiresOnlyPrimaries(t, d.id, name) {
      RekeyExact(t, d);
    } else {
      var x :| x in t.accounts && InDomain(t, x, d.id) &&
               Primary(t.accounts[x].localPart, name) in AliasAddresses(t.accounts[x]);
      RetiredPrimaryGone(t, d, x);
      OwnsAfterRekey(t, d, x, Primary(t.accounts[x].localPart, name));
    }
  }

  /** The condition under which an update of a domain keeps the index exact. */
  predicate UpdateSafe(t: Tables, d: Domain)
    requires d.id in t.domains
  {
    NormalizeName(d.name) == t.domains[d.id].name || RetiresOnlyPrimaries(t, d.id, t.domains[d.id].name)
  }

  /** The entries an update hands to the catch-all move. */
  ghost function Rehomed(t: Tables, d: Domain): map<string, AddressEntry>
    requires d.id in t.domains
  {
    if d.name == t.domains[d.id].name then t.entries
    else Rekeyed(t, d.id, t.domains[d.id].name, d.name)
  }

  lemma UpdateIsRename(t: Tables, d: Domain)
    requires Inv(t) && !EndsBlank(NormalizeName(d.name)) && DomainUpdate(t, d).Ok?
    ensures GoodName(NormalizeName(d.name))
    ensures NameFree(t, Normalized(d))
    ensures DomainUpdate(t, d).value == Rename(t, Normalized(d), Rehomed(t, Normalized(d)))
  {
    NewNameGood(d.name);
    CatchAllRowForm(t.domains[d.id]);
    CatchAllRowForm(Normalized(d));
  }

  lemma RehomedCatchAlls(t: Tables, d: Domain)
    requires Inv(t) && d.id in t.domains && GoodName(d.name)
    ensures SameCatchAlls(t.entries, Rehomed(t, d))
  {
    if d.name != t.domains[d.id].name {
      RekeyedCatchAlls(t, d.id, t.domains[d.id].name, d.name);
    }
  }

  /** Moving the catch-all touches no ordinary address, so exactness is decided by the rekeying. */
  lemma RenameAddresses(t: Tables, d: Domain, e: map<string, AddressEntry>)
    requires RecordsGood(t) && d.id in t.domains && GoodName(d.name)
    ensures AddressesExact(Rename(t, d, e)) <==> AddressesExact(t.(domains := t.domains[d.id := d], entries := e))
  {
    var u := t.(domains := t.domains[d.id := d], entries := e);
    var t' := Rename(t, d, e);
    RenameRecords(t, d, e);
    MovedOrdinary(e, OwnKey(t.domains[d.id]), OwnRow(d));
    assert RecordsGood(u);
    if AddressesExact(u) { AddressesFramed(u, t'); }
    if AddressesExact(t') { AddressesFramed(t', u); }
  }

  lemma UpdateAddresses(t: Tables, d: Domain)
    requires Inv(t) && d.id in t.domains && GoodName(d.name)
    requires d.name == t.domains[d.id].name || !PrimaryTaken(t, d.id, d.name)
    ensures AddressesExact(t.(domains := t.domains[d.id := d], entries := Rehomed(t, d))) <==>
            d.name == t.domains[d.id].name || RetiresOnlyPrimaries(t, d.id, t.domains[d.id].name)
  {
    if d.name == t.domains[d.id].name {
      SameNameAddresses(t, d);
    } else {
      RekeyExactIff(t, d);
    }
  }

  lemma SameNameAddresses(t: Tables, d: Domain)
    requires RecordsGood(t) && AddressesExact(t) && d.id in t.domains && d.name == t.domains[d.id].name
    ensures AddressesExact(t.(domains := t.domains[d.id := d]))
  {
    AddressesFramed(t, t.(domains := t.domains[d.id := d]));
  }

  predicate Renameable(t: Tables, d: Domain)
  {
    && d.id in t.domains && GoodName(d.name) && NameFree(t, d)
    && (d.name == t.domains[d.id].name || !PrimaryTaken(t, d.id, d.name))
  }

  lemma RenameKeepsIff(t: Tables, d: Domain)
    requires Inv(t) && Renameable(t, d)
    ensures Inv(Rename(t, d, Rehomed(t, d))) <==>
            d.name == t.domains[d.id].name || RetiresOnlyPrimaries(t, d.id, t.domains[d.id].name)
  {
    var e := Rehomed(t, d);
    RenameRecords(t, d, e);
    RenameNames(t, d, e);
    RehomedCatchAlls(t, d);
    RenameCatchAlls(t, d, e);
    RenameAddresses(t, d, e);
    UpdateAddresses(t, d);
  }

  /** A successful update keeps the whole invariant exactly when it is safe. */
  lemma DomainUpdateKeepsIff(t: Tables, d: Domain)
    requires Inv(t)
    requires !EndsBlank(NormalizeName(d.name))
    requires DomainUpdate(t, d).Ok?
    ensures Inv(DomainUpdate(t, d).value) <==> UpdateSafe(t, d)
  {
    UpdateIsRename(t, d);
    RenameKeepsIff(t, Normalized(d));
  }

  ghost predicate Rehoused(t: Tables, d: Domain, e: map<string, AddressEntry>)
    requires d.id in t.domains
  {
    var before := t.domains[d.id].name;
    && (forall x | InDomain(t, x, d.id) ::
          var a := Primary(t.accounts[x].localPart, d.name);
          a in e && e[a] == AccountEntry(a, x))
    && (forall x | InDomain(t, x, d.id) :: Primary(t.accounts[x].localPart, before) !in e)
    && (forall a | a !in Primaries(t, d.id, before) && a !in Primaries(t, d.id, d.name)
                   && a != "@" + before && a != "@" + d.name :: SameAt(t.entries, e, a))
  }

  lemma RekeyRehouses(t: Tables, d: Domain)
    requires Renaming(t, d)
    ensures Rehoused(t, d, Rekey(t, d).entries)
  {
    forall x | InDomain(t, x, d.id)
      ensures var a := Primary(t.accounts[x].localPart, d.name);
              a in Rekey(t, d).entries && Rekey(t, d).entries[a] == AccountEntry(a, x)
      ensures Primary(t.accounts[x].localPart, t.domains[d.id].name) !in Rekey(t, d).entries
    {
      NewPrimaryEntry(t, d, x);
      RetiredPrimaryGone(t, d, x);
    }
    RekeyedElsewhere(t, d.id, t.domains[d.id].name, d.name);
  }

  lemma RekeyedElsewhere(t: Tables, domain: u64, before: string, after: string)
    ensures forall a | a !in Primaries(t, domain, before) && a !in Primaries(t, domain, after) ::
              SameAt(t.entries, Rekeyed(t, domain, before, after), a)
  {
  }

  lemma MoveKeepsHouses(t: Tables, d: Domain, e: map<string, AddressEntry>)
    requires RecordsGood(t) && d.id in t.domains && GoodName(d.name)
    requires Rehoused(t, d, e)
    ensures Rehoused(t, d, Moved(e, OwnKey(t.domains[d.id]), OwnRow(d)))
  {
    var before := t.domains[d.id];
    MovedOrdinary(e, OwnKey(before), OwnRow(d));
    forall x | InDomain(t, x, d.id)
      ensures !IsCatchAll(Primary(t.accounts[x].localPart, d.name))
      ensures !IsCatchAll(Primary(t.accounts[x].localPart, before.name))
    {
      PrimaryForm(t.accounts[x].localPart, d.name);
      PrimaryForm(t.accounts[x].localPart, before.name);
    }
  }

  /** A successful rename makes every account of the domain resolve at its new primary and none at
      its old one, and changes no entry beside those and the domain's own catch-all. */
  lemma RenameResolution(t: Tables, d: Domain)
    requires Inv(t)
    requires !EndsBlank(NormalizeName(d.name))
    requires DomainUpdate(t, d).Ok?
    requires NormalizeName(d.name) != t.domains[d.id].name
    ensures Rehoused(t, Normalized(d), DomainUpdate(t, d).value.entries)
  {
    UpdateIsRename(t, d);
    RekeyRehouses(t, Normalized(d));
    MoveKeepsHouses(t, Normalized(d), Rehomed(t, Normalized(d)));
  }

  // ----- Accounts -----

  /** The addresses an account id holds, none when no such account lives. */
  function Holdings(t: Tables, x: u64): set<string>
  {
    if x in t.accounts then Addresses(t, t.accounts[x]) else {}
  }

  /** t' differs from t in one account only, which may have appeared, changed or gone. */
  predicate OneAccount(t: Tables, t': Tables, x: u64)
  {
    t'.domains == t.domains && t'.accounts - {x} == t.accounts - {x}
  }

  lemma OthersOwnership(t: Tables, t': Tables, x: u64)
    requires OneAccount(t, t', x)
    ensures forall y, a | y != x :: Owns(t', y, a) <==> Owns(t, y, a)
    ensures forall a :: Owns(t', x, a) <==> a in Holdings(t', x)
  {
    forall y, a | y != x ensures Owns(t', y, a) <==> Owns(t, y, a) {
      assert y in t'.accounts <==> y in t'.accounts - {x};
      assert y in t.accounts <==> y in t.accounts - {x};
      if y in t.accounts { AddressesSame(t, t', t.accounts[y]); }
    }
  }

  lemma AddressesSame(t: Tables, t': Tables, a: Account)
    requires t'.domains == t.domains
    ensures Addresses(t', a) == Addresses(t, a)
  {
  }

  /** An address that is somebody else's is neither given up nor claimed. */
  lemma OthersUntouched(t: Tables, x: u64, y: u64, a: string, current: set<string>)
    requires AddressesExact(t) && Owns(t, y, a) && y != x
    requires !Taken(t.entries, Holdings(t, x), current, x)
    ensures a !in Holdings(t, x) && a !in current
  {
    assert t.entries[a] == AccountEntry(a, y);
    assert a in Holdings(t, x) <==> Owns(t, x, a);
  }

  /** Reassigning the addresses of one account keeps the index exact, provided none was taken. */
  lemma ReassignExact(t: Tables, t': Tables, x: u64, current: set<string>)
    requires AddressesExact(t) && OneAccount(t, t', x) && current == Holdings(t', x)
    requires !Taken(t.entries, Holdings(t, x), current, x)
    requires t'.entries == Reassign(t.entries, Holdings(t, x), current, x)
    ensures AddressesExact(t')
  {
    OthersOwnership(t, t', x);
    forall y, a | Owns(t', y, a) ensures a in t'.entries && t'.entries[a] == AccountEntry(a, y) {
      if y != x { OthersUntouched(t, x, y, a, current); }
    }
    forall a | a in t'.entries && !IsCatchAll(a)
      ensures t'.entries[a].target.ToAccount? && Owns(t', t'.entries[a].target.accountId, a)
    {
      if a !in current {
        assert Owns(t, t.entries[a].target.accountId, a);
      }
    }
  }

  lemma ReassignCatchAlls(e: map<string, AddressEntry>, previous: set<string>, current: set<string>, x: u64)
    requires forall a | a in previous || a in current :: !IsCatchAll(a)
    ensures SameCatchAlls(e, Reassign(e, previous, current, x))
  {
  }

  lemma HoldingsOrdinary(t: Tables, x: u64)
    requires RecordsGood(t)
    ensures forall a | a in Holdings(t, x) :: a != "" && !IsCatchAll(a)
  {
    forall a | a in Holdings(t, x) ensures a != "" && !IsCatchAll(a) {
      AddressesOrdinary(t, t.accounts[x], a);
    }
  }

  predicate SlotFree(t: Tables, a: Account)
  {
    Slot(a) !in t.locals || t.locals[Slot(a)] == a.id
  }

  function PutSlot(t: Tables, a: Account): map<(u64, string), u64>
  {
    if a.id in t.accounts then (t.locals - {Slot(t.accounts[a.id])})[Slot(a) := a.id]
    else t.locals[Slot(a) := a.id]
  }

  /** One account created or replaced, whichever its id calls for. */
  function PutAccountRow(t: Tables, a: Account): Tables
  {
    t.(accounts := t.accounts[a.id := a],
       locals := PutSlot(t, a),
       entries := Reassign(t.entries, Holdings(t, a.id), Addresses(t, a), a.id))
  }

  lemma PutAccountRecords(t: Tables, a: Account)
    requires RecordsGood(t) && GoodAccount(t, a)
    ensures RecordsGood(PutAccountRow(t, a))
  {
  }

  lemma PutAccountLocals(t: Tables, a: Account)
    requires LocalsExact(t) && SlotFree(t, a)
    ensures LocalsExact(PutAccountRow(t, a))
  {
  }

  lemma PutAccountAddresses(t: Tables, a: Account)
    requires AddressesExact(t)
    requires !Taken(t.entries, Holdings(t, a.id), Addresses(t, a), a.id)
    ensures AddressesExact(PutAccountRow(t, a))
  {
    PutOneAccount(t, a);
    ReassignExact(t, PutAccountRow(t, a), a.id, Addresses(t, a));
  }

  lemma PutOneAccount(t: Tables, a: Account)
    ensures OneAccount(t, PutAccountRow(t, a), a.id)
    ensures Holdings(PutAccountRow(t, a), a.id) == Addresses(t, a)
  {
    AddressesSame(t, PutAccountRow(t, a), a);
  }

  lemma PutAccountCatchAlls(t: Tables, a: Account)
    requires RecordsGood(t) && CatchAllsExact(t) && GoodAccount(t, a)
    ensures CatchAllsExact(PutAccountRow(t, a))
  {
    HoldingsOrdinary(t, a.id);
    forall address | address in Addresses(t, a) ensures !IsCatchAll(address) {
      AddressesOrdinary(t, a, address);
    }
    ReassignCatchAlls(t.entries, Holdings(t, a.id), Addresses(t, a), a.id);
    CatchAllsFramed(t, PutAccountRow(t, a));
  }

  lemma PutAccountKeeps(t: Tables, a: Account)
    requires Inv(t) && GoodAccount(t, a) && SlotFree(t, a)
    requires !Taken(t.entries, Holdings(t, a.id), Addresses(t, a), a.id)
    ensures Inv(PutAccountRow(t, a))
  {
    PutAccountRecords(t, a);
    PutAccountLocals(t, a);
    PutAccountAddresses(t, a);
    PutAccountCatchAlls(t, a);
  }

  lemma AccountCreateKeeps(t: Tables, a: Account)
    requires Inv(t) && GoodAccount(t, a) && a.id !in t.accounts
    requires AccountCreate(t, a).Ok?
    ensures Inv(AccountCreate(t, a).value)
  {
    PutAccountKeeps(t, a);
  }

  lemma AccountUpdateKeeps(t: Tables, a: Account)
    requires Inv(t) && GoodAccount(t, Tidied(a))
    requires AccountUpdate(t, a).Ok?
    ensures Inv(AccountUpdate(t, a).value)
  {
    var b := Tidied(a);
    PutAccountKeeps(t, b);
    if Slot(b) == Slot(t.accounts[a.id]) { SameSlot(t, b); }
  }

  lemma SameSlot(t: Tables, a: Account)
    requires LocalsExact(t) && a.id in t.accounts && Slot(a) == Slot(t.accounts[a.id])
    ensures PutSlot(t, a) == t.locals
  {
  }

  function DropAccountRow(t: Tables, id: u64): Tables
    requires id in t.accounts
  {
    t.(accounts := t.accounts - {id},
       locals := t.locals - {Slot(t.accounts[id])},
       entries := Reassign(t.entries, Holdings(t, id), {}, id))
  }

  lemma DropAccountRecords(t: Tables, id: u64)
    requires RecordsGood(t) && LocalsExact(t) && id in t.accounts
    ensures RecordsGood(DropAccountRow(t, id)) && LocalsExact(DropAccountRow(t, id))
  {
  }

  lemma DropAccountCatchAlls(t: Tables, id: u64)
    requires RecordsGood(t) && CatchAllsExact(t) && id in t.accounts
    ensures CatchAllsExact(DropAccountRow(t, id))
  {
    HoldingsOrdinary(t, id);
    ReassignCatchAlls(t.entries, Holdings(t, id), {}, id);
    CatchAllsFramed(t, DropAccountRow(t, id));
  }

  lemma AccountDeleteKeeps(t: Tables, id: u64)
    requires Inv(t)
    requires AccountDelete(t, id).Ok?
    ensures Inv(AccountDelete(t, id).value)
  {
    DropAccountRecords(t, id);
    DropAccountAddresses(t, id);
    DropAccountCatchAlls(t, id);
  }

  lemma DropAccountAddresses(t: Tables, id: u64)
    requires AddressesExact(t) && id in t.accounts
    ensures AddressesExact(DropAccountRow(t, id))
  {
    ReassignExact(t, DropAccountRow(t, id), id, {});
  }
}
