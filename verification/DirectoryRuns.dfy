/** Whole runs of the directory: any interleaving of domain and account operations from an empty
    store keeps the cross-table invariant, and a witness for the one condition a rename needs. */
module DirectoryRuns {
  import opened Common
  import opened Bytes
  import opened Text
  import opened Snowflake
  import opened DirectoryTables
  import opened DirectoryInvariant
  import opened DirectoryAnswers
  import opened DirectoryMeaning

  datatype Command =
    | CreateDomain(name: string, aliases: seq<string>, now: u64)
    | UpdateDomain(domain: Domain)
    | DeleteDomain(id: u64)
    | CreateAccount(local: string, inDomain: u64, displayName: string, role: Role, now: u64)
    | UpdateAccount(account: Account)
    | DeleteAccount(id: u64)

  /** The tables, and the word from which the id generator of this node draws. */
  datatype System = System(tables: Tables, last: u64, node: nat)

  function Start(node: nat): System
  {
    System(EmptyTables, 0, node % NODES)
  }

  function Drawn(s: System, now: u64): System
  {
    s.(last := Candidate(s.last, now))
  }

  function DrawnId(s: System, now: u64): u64
    requires s.node < NODES
  {
    IdOf(Candidate(s.last, now), s.node)
  }

  ghost function Settle(s: System, r: Result<Tables>): System
  {
    if r.Ok? then s.(tables := r.value) else s
  }

  /** One command; one that fails leaves the tables as they were. */
  ghost function After(s: System, c: Command): System
    requires s.node < NODES
  {
    var t := s.tables;
    match c
    case CreateDomain(name, aliases, now) =>
      var n := NormalizeName(name);
      if n == "" || n in t.names then s else
        var id := DrawnId(s, now);
        Settle(Drawn(s, now), DomainCreate(t, name, aliases, id, TimestampOf(id) * 1000))
    case UpdateDomain(d) => Settle(s, DomainUpdate(t, d))
    case DeleteDomain(id) => Settle(s, DomainDelete(t, id))
    case CreateAccount(local, domain, display, role, now) =>
      if Normalize(local) == "" || (domain, Normalize(local)) in t.locals then s else
        var id := DrawnId(s, now);
        Settle(Drawn(s, now), AccountCreate(t, NewAccount(local, domain, display, role, id, TimestampOf(id) * 1000)))
    case UpdateAccount(a) => Settle(s, AccountUpdate(t, a))
    case DeleteAccount(id) => Settle(s, AccountDelete(t, id))
  }

  predicate NotCatchAllShaped(s: string)
  {
    s == "" || s[0] != '@'
  }

  /** The clock has not passed the year 2163 and ids are left. */
  predicate ClockFits(s: System, now: u64)
  {
    now < ID_MS && s.last < ID_SPAN - 1
  }

  /** What callers must respect: names do not end blank, accounts name a live domain, local parts and
      aliases have something before their '@', and a rename retires only primaries. */
  predicate Admissible(s: System, c: Command)
  {
    var t := s.tables;
    match c
    case CreateDomain(name, _, now) => ClockFits(s, now) && !EndsBlank(NormalizeName(name))
    case UpdateDomain(d) => !EndsBlank(NormalizeName(d.name)) && (d.id in t.domains ==> UpdateSafe(t, d))
    case DeleteDomain(_) => true
    case CreateAccount(local, domain, _, _, now) =>
      ClockFits(s, now) && domain in t.domains && NotCatchAllShaped(Normalize(local))
    case UpdateAccount(a) => AdmissibleAccount(t, a)
    case DeleteAccount(_) => true
  }

  predicate AdmissibleAccount(t: Tables, a: Account)
  {
    && a.domainId in t.domains && NotCatchAllShaped(Normalize(a.localPart))
    && forall alias | alias in a.aliases :: NotCatchAllShaped(Trim(alias))
  }

  /** Every record id was drawn from a word no later than the current one. */
  predicate Issued(s: System)
  {
    && s.node < NODES && s.last < ID_SPAN
    && (forall id | id in s.tables.domains :: id <= IdOf(s.last, s.node))
    && (forall id | id in s.tables.accounts :: id <= IdOf(s.last, s.node))
  }

  lemma DrawnIsNew(s: System, now: u64)
    requires Issued(s) && ClockFits(s, now)
    ensures IdOf(s.last, s.node) < DrawnId(s, now) && Candidate(s.last, now) < ID_SPAN
    ensures DrawnId(s, now) !in s.tables.domains && DrawnId(s, now) !in s.tables.accounts
    ensures Issued(Drawn(s, now))
  {
    CandidateIsLater(s.last, now);
    IdOrder(s.last, Candidate(s.last, now), s.node);
  }

  ghost predicate Good(s: System)
  {
    Inv(s.tables) && Issued(s)
  }

  lemma NewAccountGood(t: Tables, a: Account, local: string)
    requires a.localPart == Normalize(local) && a.localPart != "" && NotCatchAllShaped(a.localPart)
    requires a.domainId in t.domains && a.aliases == []
    ensures GoodAccount(t, a)
  {
  }

  lemma TidiedGood(t: Tables, a: Account)
    requires AdmissibleAccount(t, a) && Normalize(a.localPart) != ""
    ensures GoodAccount(t, Tidied(a))
  {
  }

  lemma CreateDomainStep(s: System, c: Command)
    requires Good(s) && Admissible(s, c) && c.CreateDomain?
    ensures Good(After(s, c))
  {
    var n := NormalizeName(c.name);
    if n != "" && n !in s.tables.names {
      DrawnIsNew(s, c.now);
      var id := DrawnId(s, c.now);
      DomainCreateKeeps(s.tables, c.name, c.aliases, id, TimestampOf(id) * 1000);
    }
  }

  lemma CreateAccountStep(s: System, c: Command)
    requires Good(s) && Admissible(s, c) && c.CreateAccount?
    ensures Good(After(s, c))
  {
    if Normalize(c.local) != "" && (c.inDomain, Normalize(c.local)) !in s.tables.locals {
      DrawnIsNew(s, c.now);
      var id := DrawnId(s, c.now);
      var a := NewAccount(c.local, c.inDomain, c.displayName, c.role, id, TimestampOf(id) * 1000);
      NewAccountGood(s.tables, a, c.local);
      if AccountCreate(s.tables, a).Ok? {
        AccountCreateKeeps(s.tables, a);
        AccountChanges(s.tables, a);
      }
    }
  }

  lemma UpdateAccountStep(s: System, a: Account)
    requires Good(s) && AdmissibleAccount(s.tables, a)
    ensures Good(After(s, UpdateAccount(a)))
  {
    if AccountUpdate(s.tables, a).Ok? {
      TidiedGood(s.tables, a);
      AccountUpdateKeeps(s.tables, a);
      AccountUpdateIssued(s, a, AccountUpdate(s.tables, a).value);
    }
  }

  lemma AccountUpdateIssued(s: System, a: Account, t: Tables)
    requires Issued(s) && AccountUpdate(s.tables, a) == Ok(t)
    ensures Issued(s.(tables := t))
  {
    AccountChanges(s.tables, a);
    assert s.tables.accounts[a.id := Tidied(a)].Keys == s.tables.accounts.Keys;
    IssuedKept(s, t);
  }

  lemma UpdateAddsNoRecord(t: Tables, d: Domain)
    requires DomainUpdate(t, d).Ok?
    ensures DomainUpdate(t, d).value.domains.Keys == t.domains.Keys
    ensures DomainUpdate(t, d).value.accounts == t.accounts
  {
    var after := DomainUpdate(t, d).value;
    assert after.domains == t.domains[d.id := Normalized(d)];
  }

  lemma IssuedKept(s: System, t: Tables)
    requires Issued(s) && t.domains.Keys <= s.tables.domains.Keys && t.accounts.Keys <= s.tables.accounts.Keys
    ensures Issued(s.(tables := t))
  {
  }

  lemma UpdateDomainStep(s: System, d: Domain)
    requires Good(s) && Admissible(s, UpdateDomain(d))
    ensures Good(After(s, UpdateDomain(d)))
  {
    var r := DomainUpdate(s.tables, d);
    if r.Ok? {
      UpdateAddsNoRecord(s.tables, d);
      IssuedKept(s, r.value);
      DomainUpdateKeepsIff(s.tables, d);
    }
  }

  lemma DeleteDomainStep(s: System, id: u64)
    requires Good(s)
    ensures Good(After(s, DeleteDomain(id)))
  {
    var r := DomainDelete(s.tables, id);
    if r.Ok? {
      DomainDeleteKeeps(s.tables, id);
      IssuedKept(s, r.value);
    }
  }

  lemma DeleteAccountStep(s: System, id: u64)
    requires Good(s)
    ensures Good(After(s, DeleteAccount(id)))
  {
    var r := AccountDelete(s.tables, id);
    if r.Ok? {
      AccountDeleteKeeps(s.tables, id);
      IssuedKept(s, r.value);
    }
  }

  lemma StepKeeps(s: System, c: Command)
    requires Good(s) && Admissible(s, c)
    ensures Good(After(s, c))
  {
    match c
    case CreateDomain(_, _, _) => CreateDomainStep(s, c);
    case UpdateDomain(d) => UpdateDomainStep(s, d);
    case CreateAccount(_, _, _, _, _) => CreateAccountStep(s, c);
    case UpdateAccount(a) => UpdateAccountStep(s, a);
    case DeleteDomain(id) => DeleteDomainStep(s, id);
    case DeleteAccount(id) => DeleteAccountStep(s, id);
  }

  /** s is reached from the empty system by a sequence of admissible commands. */
  ghost predicate Reaches(s: System, cs: seq<Command>, s': System)
    decreases |cs|
  {
    if cs == [] then s == s'
    else s.node < NODES && Admissible(s, cs[0]) && Reaches(After(s, cs[0]), cs[1..], s')
  }

  lemma {:induction false} RunKeeps(s: System, cs: seq<Command>, s': System)
    requires Good(s) && Reaches(s, cs, s')
    ensures Good(s')
    decreases |cs|
  {
    if cs != [] {
      StepKeeps(s, cs[0]);
      RunKeeps(After(s, cs[0]), cs[1..], s');
    }
  }

  lemma ReachedGood(node: nat, cs: seq<Command>, s: System)
    requires Reaches(Start(node), cs, s)
    ensures Good(s)
  {
    RunKeeps(Start(node), cs, s);
  }

  /** Every state reached from an empty store satisfies the invariant; spelled out: no two accounts
      share an address, every account's domain is alive and answers to its name, and an ordinary
      address resolves exactly when a live account owns it, and then to that account. */
  lemma ReachableStatesExact(node: nat, cs: seq<Command>, s: System)
    requires Reaches(Start(node), cs, s)
    ensures Inv(s.tables)
    ensures forall x, y, a | Owns(s.tables, x, a) && Owns(s.tables, y, a) :: x == y
    ensures forall x | x in s.tables.accounts ::
              && s.tables.accounts[x].domainId in s.tables.domains
              && var name := s.tables.domains[s.tables.accounts[x].domainId].name;
                 name in s.tables.names && s.tables.names[name] == s.tables.accounts[x].domainId
    ensures forall a | !IsCatchAll(a) ::
              a in s.tables.entries <==> exists x :: Owns(s.tables, x, a) && s.tables.entries[a] == AccountEntry(a, x)
  {
    ReachedGood(node, cs, s);
    forall x, y, a | Owns(s.tables, x, a) && Owns(s.tables, y, a) ensures x == y {
      OwnerUnique(s.tables, x, y, a);
    }
  }

  /** In every reached state an address, however it is written, leads to an account exactly when that account
      lists it or it is its local part at its domain. */
  lemma ReachedAddressesLead(node: nat, cs: seq<Command>, s: System, x: u64, text: string, key: string)
    requires Reaches(Start(node), cs, s) && PlainKey(key) && SameAddress(text, key) && !IsCatchAll(key)
    ensures key in s.tables.entries && s.tables.entries[key].AccountId() == Some(x) <==>
            x in s.tables.accounts && AnswersTo(s.tables, s.tables.accounts[x], text)
  {
    ReachedGood(node, cs, s);
    LeadsToIff(s.tables, x, text, key);
  }

  // ----- The rename that loses an alias -----

  /** Domain "a", and an account "x" in it that also lists its primary x@a as an alias. */
  function Aliased(d: Domain, x: Account): Tables
  {
    PutAccountRow(AddDomain(EmptyTables, d), x)
  }

  predicate Plain(d: Domain, x: Account)
  {
    && d.name == "a" && d.catchAll.None?
    && x.localPart == "x" && x.domainId == d.id && x.aliases == ["x@a"]
  }

  lemma PlainForms()
    ensures GoodName("a") && GoodName("b") && GoodLocal("x") && GoodAlias("x@a")
    ensures NormalizeName("a") == "a" && NormalizeName("b") == "b" && Normalize("x") == "x"
  {
    assert Trimmed("x@a") && Trim("x@a") == "x@a";
    assert TrimEndDots("b") == "b" && TrimEndDots("a") == "a";
    assert Lower("b") == "b" && Lower("a") == "a" && Lower("x") == "x";
  }

  lemma PlainPrimary(name: string)
    requires name == "a" || name == "b"
    ensures Primary("x", name) == "x@" + name
  {
    PlainForms();
    PrimaryForm("x", name);
    assert "x" + "@" + name == "x@" + name;
  }

  lemma PlainPrimaries()
    ensures Primary("x", "a") == "x@a" && Primary("x", "b") == "x@b"
  {
    PlainPrimary("a");
    PlainPrimary("b");
    assert "x@" + "a" == "x@a" && "x@" + "b" == "x@b";
  }

  lemma PlainAlias(x: Account)
    requires x.aliases == ["x@a"]
    ensures AliasAddresses(x) == {"x@a"}
  {
    assert Trimmed("x@a") && Trim("x@a") == "x@a";
    assert Lower("x@a") == "x@a";
    assert AliasAddresses(x) == {Normalize("x@a")};
  }

  lemma PlainAddresses(t: Tables, d: Domain, a: Account)
    requires a.domainId in t.domains && t.domains[a.domainId] == d && d.name == "a"
    requires a.localPart == "x" && (a.aliases == [] || a.aliases == ["x@a"])
    ensures Addresses(t, a) == {"x@a"}
  {
    PlainPrimaries();
    if a.aliases == [] { assert AliasAddresses(a) == {}; } else { PlainAlias(a); }
  }

  lemma PlainTidied(x: Account)
    requires x.localPart == "x" && x.aliases == ["x@a"]
    ensures Tidied(x) == x
  {
    PlainForms();
    assert Trim("x@a") == "x@a" && NonBlank(["x@a"]) == ["x@a"];
  }

  lemma AliasedEntries(d: Domain, x: Account)
    requires Plain(d, x)
    ensures Aliased(d, x).entries == map["x@a" := AccountEntry("x@a", x.id)]
  {
    PlainPrimaries();
    PlainAlias(x);
  }

  lemma AliasedNotSafe(d: Domain, x: Account)
    requires Plain(d, x)
    ensures !RetiresOnlyPrimaries(Aliased(d, x), d.id, "a")
  {
    PlainPrimaries();
    PlainAlias(x);
    assert InDomain(Aliased(d, x), x.id, d.id);
  }

  lemma AliasedRenames(d: Domain, x: Account)
    requires Plain(d, x)
    ensures !PrimaryTaken(Aliased(d, x), d.id, "b") && "b" !in Aliased(d, x).names
  {
    PlainPrimaries();
    AliasedEntries(d, x);
    assert Aliased(d, x).names == map["a" := d.id];
    forall y | y in Aliased(d, x).accounts ensures y == x.id {}
  }

  lemma AliasedUpdate(d: Domain, x: Account, after: string)
    requires Plain(d, x) && after == Normalized(d.(name := "b")).name
    ensures after == "b" && !EndsBlank(after) && DomainUpdate(Aliased(d, x), d.(name := "b")).Ok?
  {
    PlainForms();
    AliasedRenames(d, x);
  }

  lemma AliasedUnsafe(d: Domain, x: Account)
    requires Plain(d, x)
    ensures !UpdateSafe(Aliased(d, x), d.(name := "b"))
  {
    PlainForms();
    AliasedNotSafe(d, x);
  }

  /** The three commands that lead there: create the domain, create the account, list the alias. */
  function DomainOf(s: System, now: u64): Domain
    requires s.node < NODES
  {
    var id := DrawnId(s, now);
    NewDomain("a", [], id, TimestampOf(id) * 1000)
  }

  function AccountOf(s: System, d: u64, now: u64): Account
    requires s.node < NODES
  {
    var id := DrawnId(s, now);
    NewAccount("x", d, "", User, id, TimestampOf(id) * 1000)
  }

  lemma DomainMade(s: System, now: u64)
    requires s.node < NODES && s.tables == EmptyTables
    ensures After(s, CreateDomain("a", [], now)) == Drawn(s, now).(tables := AddDomain(EmptyTables, DomainOf(s, now)))
  {
    PlainForms();
  }

  lemma AccountMade(s: System, d: Domain, now: u64)
    requires s.node < NODES && s.tables == AddDomain(EmptyTables, d) && d.name == "a"
    ensures After(s, CreateAccount("x", d.id, "", User, now)) ==
            Drawn(s, now).(tables := PutAccountRow(s.tables, AccountOf(s, d.id, now)))
  {
    PlainForms();
    PlainAddresses(s.tables, d, AccountOf(s, d.id, now));
  }

  /** An update that keeps slot and addresses writes the record and sets the addresses again. */
  lemma UpdateInPlace(t: Tables, a: Account, x: Account, addresses: set<string>)
    requires x.id in t.accounts && t.accounts[x.id] == a && Tidied(x) == x && x.localPart != ""
    requires Slot(x) == Slot(a) && Addresses(t, a) == Addresses(t, x) == addresses && "" !in addresses
    ensures AccountUpdate(t, x) ==
            Ok(t.(accounts := t.accounts[x.id := x], entries := Reassign(t.entries, addresses, addresses, x.id)))
  {
  }

  lemma SameRowPut(t: Tables, a: Account, x: Account, addresses: set<string>)
    requires x.id == a.id && x.id !in t.accounts && Slot(x) == Slot(a)
    requires Addresses(t, a) == Addresses(t, x) == addresses
    ensures var t' := PutAccountRow(t, a);
            PutAccountRow(t, x) ==
            t'.(accounts := t'.accounts[x.id := x], entries := Reassign(t'.entries, addresses, addresses, x.id))
  {
    SetTwice(t.entries, Holdings(t, a.id), addresses, a.id);
    assert t.accounts[a.id := a][x.id := x] == t.accounts[x.id := x];
    assert PutSlot(t, a) == PutSlot(t, x);
  }

  lemma SetTwice(e: map<string, AddressEntry>, previous: set<string>, current: set<string>, x: u64)
    ensures Reassign(Reassign(e, previous, current, x), current, current, x) == Reassign(e, previous, current, x)
  {
  }

  lemma AliasListed(s: System, d: Domain, a: Account, x: Account)
    requires s.node < NODES && s.tables == PutAccountRow(AddDomain(EmptyTables, d), a)
    requires a.localPart == "x" && a.aliases == [] && x == a.(aliases := ["x@a"]) && Plain(d, x)
    ensures After(s, UpdateAccount(x)) == s.(tables := Aliased(d, x))
  {
    var t := s.tables;
    PlainAddresses(t, d, a);
    PlainAddresses(t, d, x);
    PlainAddresses(AddDomain(EmptyTables, d), d, a);
    PlainAddresses(AddDomain(EmptyTables, d), d, x);
    PlainTidied(x);
    UpdateInPlace(t, a, x, {"x@a"});
    SameRowPut(AddDomain(EmptyTables, d), a, x, {"x@a"});
  }

  ghost predicate Steps(s: System, c: Command, s': System)
  {
    s.node < NODES && Admissible(s, c) && After(s, c) == s'
  }

  lemma ReachesCons(s: System, c: Command, mid: System, cs: seq<Command>, s': System)
    requires Steps(s, c, mid) && Reaches(mid, cs, s')
    ensures Reaches(s, [c] + cs, s')
  {
    assert ([c] + cs)[1..] == cs;
  }

  lemma ThreeCommands(s0: System, a: Command, s1: System, b: Command, s2: System, c: Command, s3: System)
    requires Steps(s0, a, s1) && Steps(s1, b, s2) && Steps(s2, c, s3)
    ensures Reaches(s0, [a] + ([b] + ([c] + [])), s3)
  {
    ReachesCons(s2, c, s3, [], s3);
    ReachesCons(s1, b, s2, [c] + [], s3);
    ReachesCons(s0, a, s1, [b] + ([c] + []), s3);
  }

  lemma PlainAdmissible(t: Tables, x: Account)
    requires x.domainId in t.domains && x.localPart == "x" && x.aliases == ["x@a"]
    ensures AdmissibleAccount(t, x)
  {
    PlainForms();
    assert Trim("x@a") == "x@a";
  }

  lemma FirstWords()
    ensures Candidate(0, 0) == 1 && Candidate(1, 0) == 2
  {
  }

  lemma FirstCommand(node: nat, s: System, d: Domain)
    requires s == Start(node) && d == DomainOf(s, 0)
    ensures Steps(s, CreateDomain("a", [], 0), System(AddDomain(EmptyTables, d), 1, s.node))
  {
    FirstWords();
    assert Admissible(s, CreateDomain("a", [], 0)) by { PlainForms(); }
    DomainMade(s, 0);
  }

  lemma SecondCommand(s: System, d: Domain, a: Account)
    requires s.node < NODES && s.tables == AddDomain(EmptyTables, d) && s.last == 1 && d.name == "a"
    requires a == AccountOf(s, d.id, 0)
    ensures Steps(s, CreateAccount("x", d.id, "", User, 0), System(PutAccountRow(s.tables, a), 2, s.node))
  {
    FirstWords();
    assert Admissible(s, CreateAccount("x", d.id, "", User, 0)) by { PlainForms(); }
    AccountMade(s, d, 0);
  }

  lemma ThirdCommand(s: System, d: Domain, a: Account, x: Account)
    requires s.node < NODES && s.tables == PutAccountRow(AddDomain(EmptyTables, d), a)
    requires a.localPart == "x" && a.aliases == [] && x == a.(aliases := ["x@a"]) && Plain(d, x)
    ensures Steps(s, UpdateAccount(x), s.(tables := Aliased(d, x)))
  {
    PlainAdmissible(s.tables, x);
    AliasListed(s, d, a, x);
  }

  lemma AliasedReached(node: nat) returns (cs: seq<Command>, s: System, d: Domain, x: Account)
    ensures Plain(d, x) && s.tables == Aliased(d, x) && Reaches(Start(node), cs, s)
  {
    var s0 := Start(node);
    d := DomainOf(s0, 0);
    var s1 := System(AddDomain(EmptyTables, d), 1, s0.node);
    var a := AccountOf(s1, d.id, 0);
    var s2 := System(PutAccountRow(s1.tables, a), 2, s0.node);
    x := a.(aliases := ["x@a"]);
    s := s2.(tables := Aliased(d, x));
    cs := [CreateDomain("a", [], 0)] + ([CreateAccount("x", d.id, "", User, 0)] + ([UpdateAccount(x)] + []));
    PlainNames(s0, s1, d.id);
    FirstCommand(node, s0, d);
    SecondCommand(s1, d, a);
    ThirdCommand(s2, d, a, x);
    ThreeCommands(s0, CreateDomain("a", [], 0), s1, CreateAccount("x", d.id, "", User, 0), s2, UpdateAccount(x), s);
  }

  lemma PlainNames(s: System, s': System, d: u64)
    requires s.node < NODES && s'.node < NODES
    ensures DomainOf(s, 0).name == "a" && DomainOf(s, 0).catchAll.None?
    ensures AccountOf(s', d, 0).localPart == "x" && AccountOf(s', d, 0).aliases == []
    ensures AccountOf(s', d, 0).domainId == d
  {
    PlainForms();
  }

  /** By three admissible commands the empty directory becomes one where the rename to "b" succeeds and the
      listed alias x@a then resolves to nobody. */
  lemma RenameLosesAlias(node: nat) returns (cs: seq<Command>, s: System, d: Domain)
    ensures Reaches(Start(node), cs, s) && Inv(s.tables)
    ensures DomainUpdate(s.tables, d).Ok? && !Inv(DomainUpdate(s.tables, d).value)
  {
    var before, x;
    cs, s, before, x := AliasedReached(node);
    d := before.(name := "b");
    ReachedGood(node, cs, s);
    AliasedBreaks(before, x);
  }

  lemma AliasedBreaks(d: Domain, x: Account)
    requires Plain(d, x) && Inv(Aliased(d, x))
    ensures var after := DomainUpdate(Aliased(d, x), d.(name := "b")); after.Ok? && !Inv(after.value)
  {
    AliasedUpdate(d, x, Normalized(d.(name := "b")).name);
    AliasedUnsafe(d, x);
    DomainUpdateKeepsIff(Aliased(d, x), d.(name := "b"));
  }
}
