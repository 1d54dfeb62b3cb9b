/** When the directory says no. In a state that satisfies the invariant, each operation is refused
    exactly for a conflict among the records themselves, and an accepted one changes exactly the record
    it names. */
module DirectoryAnswers {
  import opened Common
  import opened Bytes
  import opened Text
  import opened DirectoryTables
  import opened DirectoryInvariant

  /** Another account answers to one of these addresses. */
  ghost predicate Contested(t: Tables, x: u64, addresses: set<string>)
  {
    exists y, a :: y != x && a in addresses && Owns(t, y, a)
  }

  lemma OwnerOfEntry(t: Tables, a: string)
    requires AddressesExact(t) && a in t.entries && !IsCatchAll(a)
    ensures t.entries[a].target.ToAccount? && t.entries[a].AccountId() == Some(t.entries[a].target.accountId)
    ensures Owns(t, t.entries[a].target.accountId, a)
  {
  }

  lemma TakenIffContested(t: Tables, x: u64, addresses: set<string>)
    requires AddressesExact(t) && forall a | a in addresses :: !IsCatchAll(a)
    ensures Taken(t.entries, Holdings(t, x), addresses, x) <==> Contested(t, x, addresses)
  {
    if Taken(t.entries, Holdings(t, x), addresses, x) {
      var a :| a in addresses && a !in Holdings(t, x) && a in t.entries && t.entries[a].AccountId() != Some(x);
      OwnerOfEntry(t, a);
    }
    if Contested(t, x, addresses) {
      var y, a :| y != x && a in addresses && Owns(t, y, a);
      assert t.entries[a] == AccountEntry(a, y);
      assert a in Holdings(t, x) <==> Owns(t, x, a);
    }
  }

  lemma AddressesAllOrdinary(t: Tables, a: Account)
    requires RecordsGood(t) && GoodAccount(t, a)
    ensures forall s | s in Addresses(t, a) :: s != "" && !IsCatchAll(s)
  {
    forall s | s in Addresses(t, a) ensures s != "" && !IsCatchAll(s) { AddressesOrdinary(t, a, s); }
  }

  /** No other account has this local part in this domain. */
  predicate SlotUnused(t: Tables, a: Account)
  {
    forall y | y in t.accounts && y != a.id :: Slot(t.accounts[y]) != Slot(a)
  }

  lemma SlotUnusedIffFree(t: Tables, a: Account)
    requires LocalsExact(t)
    ensures SlotUnused(t, a) <==> SlotFree(t, a)
  {
    if Slot(a) in t.locals {
      assert t.locals[Slot(a)] in t.accounts;
    }
  }

  /** An account is refused exactly when its place or one of its addresses is another's. */
  lemma AccountCreateAnswers(t: Tables, a: Account)
    requires RecordsGood(t) && LocalsExact(t) && AddressesExact(t) && GoodAccount(t, a) && a.id !in t.accounts
    ensures AccountCreate(t, a).Ok? <==> SlotUnused(t, a) && !Contested(t, a.id, Addresses(t, a))
  {
    AddressesAllOrdinary(t, a);
    SlotUnusedIffFree(t, a);
    assert Slot(a) in t.locals ==> t.locals[Slot(a)] != a.id;
    assert Holdings(t, a.id) == {};
    TakenIffContested(t, a.id, Addresses(t, a));
  }

  /** The same for a change, which an unknown id is refused as well. */
  lemma AccountUpdateAnswers(t: Tables, a: Account, b: Account)
    requires RecordsGood(t) && LocalsExact(t) && AddressesExact(t) && b == Tidied(a) && GoodAccount(t, b)
    ensures AccountUpdate(t, a).Ok? <==> a.id in t.accounts && SlotUnused(t, b) && !Contested(t, a.id, Addresses(t, b))
  {
    AddressesAllOrdinary(t, b);
    SlotUnusedIffFree(t, b);
    if a.id in t.accounts {
      AddressesAllOrdinary(t, t.accounts[a.id]);
      TakenIffContested(t, a.id, Addresses(t, b));
      OwnSlot(t, a.id);
    }
  }

  lemma OwnSlot(t: Tables, x: u64)
    requires LocalsExact(t) && x in t.accounts
    ensures Slot(t.accounts[x]) in t.locals && t.locals[Slot(t.accounts[x])] == x
  {
  }

  /** An accepted operation on an account changes that record and no other, of accounts or domains. */
  lemma AccountChanges(t: Tables, a: Account)
    ensures AccountCreate(t, a).Ok? ==>
              AccountCreate(t, a).value.accounts == t.accounts[a.id := a]
              && AccountCreate(t, a).value.domains == t.domains
    ensures AccountUpdate(t, a).Ok? ==>
              AccountUpdate(t, a).value.accounts == t.accounts[a.id := Tidied(a)]
              && AccountUpdate(t, a).value.domains == t.domains
    ensures AccountDelete(t, a.id).Ok? ==>
              AccountDelete(t, a.id).value.accounts == t.accounts - {a.id}
              && AccountDelete(t, a.id).value.domains == t.domains
  {
  }

  lemma AccountDeleteAnswers(t: Tables, id: u64)
    requires RecordsGood(t)
    ensures AccountDelete(t, id).Ok? <==> id in t.accounts
  {
    if id in t.accounts { AddressesAllOrdinary(t, t.accounts[id]); }
  }

  /** No other domain bears this name. */
  predicate NameUnused(t: Tables, id: u64, n: string)
  {
    forall other | other in t.domains && other != id :: t.domains[other].name != n
  }

  lemma NameUnusedIff(t: Tables, id: u64, n: string)
    requires NamesExact(t)
    ensures NameUnused(t, id, n) <==> n !in t.names || t.names[n] == id
  {
  }

  lemma DomainCreateAnswers(t: Tables, name: string, aliases: seq<string>, id: u64, createdAt: nat, n: string)
    requires NamesExact(t) && n == NormalizeName(name) && id !in t.domains
    ensures DomainCreate(t, name, aliases, id, createdAt).Ok? <==> n != "" && NameUnused(t, id, n)
    ensures DomainCreate(t, name, aliases, id, createdAt).Ok? ==>
              var t' := DomainCreate(t, name, aliases, id, createdAt).value;
              && t'.domains == t.domains[id := NewDomain(name, aliases, id, createdAt)]
              && t'.accounts == t.accounts && t'.entries == t.entries
  {
    NameUnusedIff(t, id, n);
    assert n in t.names ==> t.names[n] in t.domains;
  }

  /** A domain goes exactly when nobody lives in it. */
  lemma DomainDeleteAnswers(t: Tables, id: u64)
    ensures DomainDelete(t, id).Ok? <==> id in t.domains && forall x | x in t.accounts :: !InDomain(t, x, id)
    ensures DomainDelete(t, id).Ok? ==>
              DomainDelete(t, id).value.domains == t.domains - {id} && DomainDelete(t, id).value.accounts == t.accounts
  {
  }

  /** Some account of the domain would move onto an address another account answers to. */
  ghost predicate Collides(t: Tables, domain: u64, n: string)
  {
    exists x :: InDomain(t, x, domain) && Contested(t, x, {Primary(t.accounts[x].localPart, n)})
  }

  lemma NewPrimaryOrdinary(t: Tables, x: u64, n: string)
    requires RecordsGood(t) && x in t.accounts && GoodName(n)
    ensures !IsCatchAll(Primary(t.accounts[x].localPart, n))
  {
    PrimaryForm(t.accounts[x].localPart, n);
  }

  lemma PrimaryTakenAt(t: Tables, x: u64, a: string)
    requires AddressesExact(t) && !IsCatchAll(a)
    ensures a in t.entries && t.entries[a].AccountId() != Some(x) <==> Contested(t, x, {a})
  {
    if a in t.entries { OwnerOfEntry(t, a); }
    if Contested(t, x, {a}) {
      var y, s :| y != x && s in {a} && Owns(t, y, s);
      assert t.entries[a] == AccountEntry(a, y);
    }
  }

  lemma PrimaryTakenIffCollides(t: Tables, domain: u64, n: string)
    requires RecordsGood(t) && AddressesExact(t) && GoodName(n)
    ensures PrimaryTaken(t, domain, n) <==> Collides(t, domain, n)
  {
    forall x | InDomain(t, x, domain)
      ensures var a := Primary(t.accounts[x].localPart, n);
              a in t.entries && t.entries[a].AccountId() != Some(x) <==> Contested(t, x, {a})
    {
      NewPrimaryOrdinary(t, x, n);
      PrimaryTakenAt(t, x, Primary(t.accounts[x].localPart, n));
    }
  }

  /** A domain's change is refused exactly when the domain is unknown, its name is blank or another's, or a
      rename would move an account onto another's address. */
  lemma DomainUpdateAnswers(t: Tables, d: Domain, after: Domain)
    requires RecordsGood(t) && NamesExact(t) && AddressesExact(t)
    requires after == Normalized(d) && (after.name != "" ==> GoodName(after.name))
    ensures DomainUpdate(t, d).Ok? <==>
            && d.id in t.domains && after.name != ""
            && (after.name == t.domains[d.id].name
                || (NameUnused(t, d.id, after.name) && !Collides(t, d.id, after.name)))
    ensures DomainUpdate(t, d).Ok? ==>
              DomainUpdate(t, d).value.domains == t.domains[d.id := after]
              && DomainUpdate(t, d).value.accounts == t.accounts
  {
    NameUnusedIff(t, d.id, after.name);
    if after.name != "" { PrimaryTakenIffCollides(t, d.id, after.name); }
  }
}
