/** What the directory promises its callers, said of the texts and records they give it: which record an accepted
    request leaves, field by field, and which account an address leads to, character by character. */
module DirectoryMeaning {
  import opened Common
  import opened Bytes
  import opened Text
  import opened DirectoryTables
  import opened DirectoryInvariant

  // ----- Lists of aliases -----

  predicate Ascends(at: seq<nat>, n: nat)
  {
    (forall i | 0 <= i < |at| :: at[i] < n) && (forall i, j | 0 <= i < j < |at| :: at[i] < at[j])
  }

  /** at are the places, in order, of the aliases that are stored: each read as a name, and the others as nothing. */
  ghost predicate ReadAt(asked: seq<string>, stored: seq<string>, at: seq<nat>)
  {
    && |at| == |stored| && Ascends(at, |asked|)
    && (forall k | 0 <= k < |stored| :: stored[k] != "" && ReadAs(asked[at[k]], stored[k]))
    && (forall i | 0 <= i < |asked| && i !in at :: ReadAs(asked[i], ""))
  }

  /** at are the places, in order, of the aliases that are stored as they are; the others are blank. */
  ghost predicate KeptAt(asked: seq<string>, stored: seq<string>, at: seq<nat>)
  {
    && |at| == |stored| && Ascends(at, |asked|)
    && (forall k | 0 <= k < |stored| :: !Blank(stored[k]) && stored[k] == asked[at[k]])
    && (forall i | 0 <= i < |asked| && i !in at :: Blank(asked[i]))
  }

  /** The values that are not empty are picked, in order. */
  predicate Picked(values: seq<string>, stored: seq<string>, at: seq<nat>)
  {
    && |at| == |stored| && Ascends(at, |values|)
    && (forall k | 0 <= k < |stored| :: stored[k] != "" && stored[k] == values[at[k]])
    && (forall i | 0 <= i < |values| && i !in at :: values[i] == "")
  }

  function Shifted(at: seq<nat>): (r: seq<nat>)
    ensures |r| == |at| && forall k | 0 <= k < |at| :: r[k] == at[k] + 1
  {
    seq(|at|, k requires 0 <= k < |at| => at[k] + 1)
  }

  lemma ShiftedHas(at: seq<nat>, i: nat)
    requires i in at
    ensures i + 1 in Shifted(at)
  {
    var k :| 0 <= k < |at| && at[k] == i;
    assert Shifted(at)[k] == i + 1;
  }

  lemma PickedSkips(values: seq<string>, stored: seq<string>, at: seq<nat>)
    requires Picked(values, stored, at)
    ensures Picked([""] + values, stored, Shifted(at))
  {
    var whole := [""] + values;
    forall i | 0 <= i < |whole| && i !in Shifted(at) ensures whole[i] == "" {
      if i > 0 && i - 1 in at { ShiftedHas(at, i - 1); }
    }
  }

  lemma TakesMisses(values: seq<string>, stored: seq<string>, at: seq<nat>, i: nat)
    requires Picked(values, stored, at) && i < |values| && i + 1 !in [0] + Shifted(at)
    ensures values[i] == ""
  {
    if i in at { ShiftedHas(at, i); }
  }

  lemma TakesAscends(at: seq<nat>, n: nat)
    requires Ascends(at, n)
    ensures Ascends([0] + Shifted(at), n + 1)
  {
  }

  lemma PickedTakes(values: seq<string>, stored: seq<string>, at: seq<nat>, v: string)
    requires Picked(values, stored, at) && v != ""
    ensures Picked([v] + values, [v] + stored, [0] + Shifted(at))
  {
    var whole, all, places := [v] + values, [v] + stored, [0] + Shifted(at);
    TakesAscends(at, |values|);
    assert places[0] == 0 && 0 in places;
    forall k | 0 <= k < |all| ensures all[k] != "" && all[k] == whole[places[k]] {
      if k > 0 { assert all[k] == stored[k - 1] && places[k] == at[k - 1] + 1; }
    }
    forall i | 0 <= i < |whole| && i !in places ensures whole[i] == "" {
      if i > 0 { TakesMisses(values, stored, at, i - 1); }
    }
  }

  function NotEmpty(values: seq<string>): seq<string>
  {
    if values == [] then [] else (if values[0] == "" then [] else [values[0]]) + NotEmpty(values[1..])
  }

  lemma {:induction false} NotEmptyPicked(values: seq<string>) returns (at: seq<nat>)
    ensures Picked(values, NotEmpty(values), at)
  {
    at := [];
    if values != [] {
      var rest := NotEmptyPicked(values[1..]);
      assert values == [values[0]] + values[1..];
      if values[0] == "" {
        PickedSkips(values[1..], NotEmpty(values[1..]), rest);
        at := Shifted(rest);
      } else {
        PickedTakes(values[1..], NotEmpty(values[1..]), rest, values[0]);
        at := [0] + Shifted(rest);
      }
    }
  }

  lemma NotEmptyCons(v: string, values: seq<string>)
    ensures NotEmpty([v] + values) == (if v == "" then [] else [v]) + NotEmpty(values)
  {
    assert ([v] + values)[1..] == values;
  }

  function NamesOf(asked: seq<string>): (r: seq<string>)
    ensures |r| == |asked| && forall i | 0 <= i < |r| :: r[i] == NormalizeName(asked[i])
  {
    seq(|asked|, i requires 0 <= i < |asked| => NormalizeName(asked[i]))
  }

  function StoredForm(alias: string): (r: string)
    ensures r == "" <==> Trim(alias) == ""
    ensures r != "" ==> r == alias
  {
    NothingToTrim();
    if Trim(alias) == "" then "" else alias
  }

  lemma NothingToTrim()
    ensures Trim("") == ""
  {
    assert Trimmed("");
  }

  function WithoutBlank(asked: seq<string>): (r: seq<string>)
    ensures |r| == |asked| && forall i | 0 <= i < |r| :: r[i] == StoredForm(asked[i])
  {
    seq(|asked|, i requires 0 <= i < |asked| => StoredForm(asked[i]))
  }

  lemma {:induction false} NamesAreNotEmpty(asked: seq<string>)
    ensures NonBlankNames(asked) == NotEmpty(NamesOf(asked))
  {
    if asked != [] {
      NamesAreNotEmpty(asked[1..]);
      assert NamesOf(asked) == [NormalizeName(asked[0])] + NamesOf(asked[1..]);
      NotEmptyCons(NormalizeName(asked[0]), NamesOf(asked[1..]));
    }
  }

  lemma {:induction false} AliasesAreNotEmpty(asked: seq<string>)
    ensures NonBlank(asked) == NotEmpty(WithoutBlank(asked))
  {
    if asked != [] {
      AliasesAreNotEmpty(asked[1..]);
      assert WithoutBlank(asked) == [StoredForm(asked[0])] + WithoutBlank(asked[1..]);
      NotEmptyCons(StoredForm(asked[0]), WithoutBlank(asked[1..]));
    }
  }

  lemma NamesReadAt(asked: seq<string>) returns (at: seq<nat>)
    ensures ReadAt(asked, NonBlankNames(asked), at)
  {
    NamesAreNotEmpty(asked);
    at := NotEmptyPicked(NamesOf(asked));
    forall i | 0 <= i < |asked| ensures ReadAs(asked[i], NamesOf(asked)[i]) {
      NameReadAs(asked[i], NormalizeName(asked[i]));
    }
  }

  lemma BlankIff(s: string)
    ensures Blank(s) <==> Trim(s) == ""
  {
    TrimExact(s, "");
    if Blank(s) {
      assert Blank("") && s == s + "" + "";
    }
    if Around(s, "") {
      var before, after :| Blank(before) && Blank(after) && s == before + "" + after;
    }
  }

  lemma AliasesKeptAt(asked: seq<string>) returns (at: seq<nat>)
    ensures KeptAt(asked, NonBlank(asked), at)
  {
    AliasesAreNotEmpty(asked);
    at := NotEmptyPicked(WithoutBlank(asked));
    forall i | 0 <= i < |asked| ensures Blank(asked[i]) <==> WithoutBlank(asked)[i] == "" {
      BlankIff(asked[i]);
      assert Trimmed("");
    }
  }

  // ----- The record an accepted request leaves -----

  /** A domain saved as asked: its name and aliases as they are read, everything else untouched. */
  ghost predicate DomainSaved(asked: Domain, stored: Domain)
  {
    && stored.id == asked.id && stored.enabled == asked.enabled && stored.catchAll == asked.catchAll
    && stored.dkimKeyIds == asked.dkimKeyIds && stored.dnsStatus == asked.dnsStatus
    && stored.createdAt == asked.createdAt
    && ReadAs(asked.name, stored.name) && exists at :: ReadAt(asked.aliases, stored.aliases, at)
  }

  /** A new domain: enabled, unverified, with no catch-all and no keys. */
  ghost predicate DomainOpened(name: string, aliases: seq<string>, id: u64, at: nat, stored: Domain)
  {
    && stored.id == id && stored.enabled && stored.catchAll.None? && stored.dkimKeyIds == []
    && stored.dnsStatus == Unverified && stored.createdAt == at
    && ReadAs(name, stored.name) && exists at :: ReadAt(aliases, stored.aliases, at)
  }

  /** An account saved as asked: its local part in plain form, its aliases without the blank ones, everything
      else untouched. */
  ghost predicate AccountSaved(asked: Account, stored: Account)
  {
    && stored.id == asked.id && stored.domainId == asked.domainId && stored.displayName == asked.displayName
    && stored.enabled == asked.enabled && stored.role == asked.role && stored.createdAt == asked.createdAt
    && PlainKey(stored.localPart) && SameAddress(asked.localPart, stored.localPart)
    && exists at :: KeptAt(asked.aliases, stored.aliases, at)
  }

  /** A new account: enabled, in the role asked for, without aliases. */
  ghost predicate AccountOpened(local: string, domain: u64, displayName: string, role: Role, id: u64, at: nat,
                                stored: Account)
  {
    && stored.id == id && stored.domainId == domain && stored.displayName == displayName && stored.role == role
    && stored.enabled && stored.aliases == [] && stored.createdAt == at
    && PlainKey(stored.localPart) && SameAddress(local, stored.localPart)
  }

  lemma NormalizedIsSaved(d: Domain)
    ensures DomainSaved(d, Normalized(d))
  {
    NameReadAs(d.name, NormalizeName(d.name));
    var at := NamesReadAt(d.aliases);
  }

  lemma NewDomainIsOpened(name: string, aliases: seq<string>, id: u64, createdAt: nat)
    ensures DomainOpened(name, aliases, id, createdAt, NewDomain(name, aliases, id, createdAt))
  {
    NameReadAs(name, NormalizeName(name));
    var at := NamesReadAt(aliases);
  }

  lemma TidiedIsSaved(a: Account)
    ensures AccountSaved(a, Tidied(a))
  {
    NormalizeExact(a.localPart, Normalize(a.localPart));
    var at := AliasesKeptAt(a.aliases);
  }

  lemma NewAccountIsOpened(local: string, domain: u64, displayName: string, role: Role, id: u64, createdAt: nat)
    ensures AccountOpened(local, domain, displayName, role, id, createdAt,
                          NewAccount(local, domain, displayName, role, id, createdAt))
  {
    NormalizeExact(local, Normalize(local));
  }

  // ----- Where an address leads -----

  /** The account lists the address as an alias, or it is its local part at its domain's name. */
  ghost predicate AnswersTo(t: Tables, a: Account, text: string)
  {
    || (a.domainId in t.domains && SameAddress(text, a.localPart + "@" + t.domains[a.domainId].name))
    || exists alias | alias in a.aliases :: !Blank(alias) && SameAddress(text, alias)
  }

  lemma SameAddressSteps(s: string, t: string, key: string)
    requires SameAddress(s, key)
    ensures SameAddress(s, t) <==> SameAddress(t, key)
  {
    SameKeyIff(s, key);
    SameKeyIff(s, t);
    SameKeyIff(t, key);
  }

  /** Any way of writing an address, and the key it is stored under. */
  lemma OwnsExact(t: Tables, x: u64, text: string, key: string)
    requires PlainKey(key) && SameAddress(text, key)
    ensures Owns(t, x, key) <==> x in t.accounts && AnswersTo(t, t.accounts[x], text)
  {
    if x in t.accounts {
      var a := t.accounts[x];
      if a.domainId in t.domains { KeyOf(text, key, a.localPart + "@" + t.domains[a.domainId].name); }
      forall alias | alias in a.aliases
        ensures Trim(alias) != "" && Normalize(alias) == key <==> !Blank(alias) && SameAddress(text, alias)
      {
        BlankIff(alias);
        KeyOf(text, key, alias);
      }
    }
  }

  lemma KeyOf(text: string, key: string, other: string)
    requires PlainKey(key) && SameAddress(text, key)
    ensures Normalize(other) == key <==> SameAddress(text, other)
  {
    NormalizeExact(other, key);
    SameAddressSteps(text, other, key);
  }

  /** In a coherent directory an address, however it is written, leads to an account exactly when that account
      lists it or it is its local part at its domain. */
  lemma LeadsToIff(t: Tables, x: u64, text: string, key: string)
    requires Inv(t) && PlainKey(key) && SameAddress(text, key) && !IsCatchAll(key)
    ensures key in t.entries && t.entries[key].AccountId() == Some(x) <==>
            x in t.accounts && AnswersTo(t, t.accounts[x], text)
  {
    OwnsExact(t, x, text, key);
    if key in t.entries { assert t.entries[key].target.ToAccount? && Owns(t, t.entries[key].target.accountId, key); }
  }

  /** A look-up by any way of writing an address finds the entry under its plain form, if there is one. */
  ghost predicate LooksUp(e: map<string, AddressEntry>, text: string, r: Option<AddressEntry>)
  {
    && (r.None? <==> forall key | key in e && PlainKey(key) :: !SameAddress(text, key))
    && (forall key | key in e && PlainKey(key) && SameAddress(text, key) :: r == Some(e[key]))
  }

  lemma KeyLooksUp(e: map<string, AddressEntry>, text: string)
    ensures var key := Normalize(text); LooksUp(e, text, if key in e then Some(e[key]) else None)
  {
    forall key ensures Normalize(text) == key <==> PlainKey(key) && SameAddress(text, key) {
      NormalizeExact(text, key);
    }
  }

  /** Two ways of writing one address are looked up alike. */
  lemma LookedUpAlike(e: map<string, AddressEntry>, text: string, other: string, r: Option<AddressEntry>,
                      r': Option<AddressEntry>)
    requires SameAddress(text, other) && LooksUp(e, text, r) && LooksUp(e, other, r')
    ensures r == r'
  {
    forall key ensures SameAddress(text, key) <==> SameAddress(other, key) {
      SameKeyIff(text, other);
      SameKeyIff(text, key);
      SameKeyIff(other, key);
    }
    if r.Some? {
      var key :| key in e && PlainKey(key) && SameAddress(text, key);
    }
  }

  // ----- Where a catch-all leads -----

  /** An accepted update saves that domain as asked and no other. */
  lemma UpdateSaves(t: Tables, d: Domain)
    requires DomainUpdate(t, d).Ok?
    ensures var t' := DomainUpdate(t, d).value;
            && t'.domains.Keys == t.domains.Keys && d.id in t'.domains && DomainSaved(d, t'.domains[d.id])
            && (forall other | other in t.domains && other != d.id :: t'.domains[other] == t.domains[other])
  {
    NormalizedIsSaved(d);
    UpdatedDomains(t, d);
  }

  lemma UpdatedDomains(t: Tables, d: Domain)
    requires DomainUpdate(t, d).Ok?
    ensures d.id in t.domains && DomainUpdate(t, d).value.domains == t.domains[d.id := Normalized(d)]
  {
  }

  /** After an accepted update the address "@" + name leads to the catch-all asked for, and nowhere without one. */
  lemma CatchAllFollows(t: Tables, d: Domain)
    requires Inv(t) && !EndsBlank(NormalizeName(d.name)) && DomainUpdate(t, d).Ok?
    ensures var t' := DomainUpdate(t, d).value;
            && d.id in t'.domains
            && var address := "@" + t'.domains[d.id].name;
               match d.catchAll
               case Some(x) => address in t'.entries && t'.entries[address].AccountId() == Some(x)
               case None => address !in t'.entries
  {
    UpdateIsRename(t, d);
    RenamedCatchAll(t, Normalized(d));
  }

  /** Even a name that ends blank has its catch-all under the key it is looked up by. */
  lemma CatchAllKeyForm(name: string)
    requires name != "" && !IsWhitespace(name[0]) && Lower(name) == name
    ensures CatchAllAddress(name) == Normalize("@" + name)
  {
    var core := TrimmedName(name);
    NormalizeCatchAll(core);
    NormalizeWildcard(name, core);
  }

  /** Whatever the directory and the name, a catch-all asked for is found under every way of writing "@" + name. */
  lemma CatchAllFound(t: Tables, d: Domain, key: string)
    requires DomainUpdate(t, d).Ok? && d.catchAll.Some?
    ensures var t' := DomainUpdate(t, d).value;
            && d.id in t'.domains
            && (PlainKey(key) && SameAddress("@" + t'.domains[d.id].name, key) ==>
                  key in t'.entries && t'.entries[key].AccountId() == d.catchAll)
  {
    UpdatedDomains(t, d);
    var name := NormalizeName(d.name);
    CatchAllKeyForm(name);
    NormalizeExact("@" + name, key);
  }

  lemma RenamedCatchAll(t: Tables, after: Domain)
    requires Inv(t) && after.id in t.domains && GoodName(after.name) && NameFree(t, after)
    ensures var t' := Rename(t, after, Rehomed(t, after));
            && t'.domains[after.id] == after
            && var address := "@" + after.name;
               match after.catchAll
               case Some(x) => address in t'.entries && t'.entries[address].AccountId() == Some(x)
               case None => address !in t'.entries
  {
    RenameNames(t, after, Rehomed(t, after));
    RehomedCatchAlls(t, after);
    RenameCatchAlls(t, after, Rehomed(t, after));
    CatchAllAt(Rename(t, after, Rehomed(t, after)), after.id);
  }

  lemma CatchAllAt(t: Tables, id: u64)
    requires NamesExact(t) && CatchAllsExact(t) && id in t.domains
    ensures var address := "@" + t.domains[id].name;
            match t.domains[id].catchAll
            case Some(x) => address in t.entries && t.entries[address].AccountId() == Some(x)
            case None => address !in t.entries
  {
    var address := "@" + t.domains[id].name;
    assert address[1..] == t.domains[id].name && IsCatchAll(address);
    if address in t.entries { assert HasCatchAll(t, address[1..], t.entries[address].target); }
  }
}
