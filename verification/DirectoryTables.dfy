/** The directory as five typed tables, the meaning of every registry operation on them, and the
    batch of row operations by which the registries carry it out. */
module DirectoryTables {
  import opened Common
  import opened Bytes
  import opened Text

  datatype DnsStatus = Unverified | Verified(checkedAt: nat) | Failing(checkedAt: nat)

  datatype Domain = Domain(
    id: u64, name: string, aliases: seq<string>, enabled: bool, catchAll: Option<u64>,
    dkimKeyIds: seq<u64>, dnsStatus: DnsStatus, createdAt: nat)
  {
    predicate MatchesName(n: string)
    {
      Lower(name) == Lower(n) || exists alias | alias in aliases :: Lower(alias) == Lower(n)
    }
  }

  datatype Role = Admin | User

  datatype Account = Account(
    id: u64, localPart: string, domainId: u64, displayName: string, enabled: bool, role: Role,
    aliases: seq<string>, createdAt: nat)

  datatype Target = ToAccount(accountId: u64) | Forward(destination: string) | Reject

  datatype AddressEntry = AddressEntry(address: string, target: Target)
  {
    function AccountId(): Option<u64>
    {
      if target.ToAccount? then Some(target.accountId) else None
    }
  }

  datatype Tables = Tables(
    domains: map<u64, Domain>,
    names: map<string, u64>,
    accounts: map<u64, Account>,
    locals: map<(u64, string), u64>,
    entries: map<string, AddressEntry>)

  const EmptyTables := Tables(map[], map[], map[], map[], map[])

  // ----- Row operations -----

  datatype Op =
    | PutDomain(domain: Domain)
    | DropDomain(domainId: u64)
    | PutName(name: string, owner: u64)
    | DropName(name: string)
    | PutAccount(account: Account)
    | DropAccount(accountId: u64)
    | PutLocal(inDomain: u64, local: string, owner: u64)
    | DropLocal(inDomain: u64, local: string)
    | PutEntry(address: string, owner: u64)
    | DropEntry(address: string)

  function AccountEntry(address: string, account: u64): AddressEntry
  {
    AddressEntry(address, ToAccount(account))
  }

  function Apply(t: Tables, op: Op): Tables
  {
    match op
    case PutDomain(d) => t.(domains := t.domains[d.id := d])
    case DropDomain(id) => t.(domains := t.domains - {id})
    case PutName(n, id) => t.(names := t.names[n := id])
    case DropName(n) => t.(names := t.names - {n})
    case PutAccount(a) => t.(accounts := t.accounts[a.id := a])
    case DropAccount(id) => t.(accounts := t.accounts - {id})
    case PutLocal(d, l, id) => t.(locals := t.locals[(d, l) := id])
    case DropLocal(d, l) => t.(locals := t.locals - {(d, l)})
    case PutEntry(a, id) => t.(entries := t.entries[a := AccountEntry(a, id)])
    case DropEntry(a) => t.(entries := t.entries - {a})
  }

  /** A batch takes effect in order and as a whole. */
  function ApplyAll(t: Tables, ops: seq<Op>): Tables
  {
    if ops == [] then t else Apply(ApplyAll(t, ops[..|ops| - 1]), ops[|ops| - 1])
  }

  lemma {:induction false} ApplyAllConcat(t: Tables, a: seq<Op>, b: seq<Op>)
    ensures ApplyAll(t, a + b) == ApplyAll(ApplyAll(t, a), b)
  {
    if b == [] {
      assert a + b == a;
    } else {
      assert (a + b)[..|a + b| - 1] == a + b[..|b| - 1];
      ApplyAllConcat(t, a, b[..|b| - 1]);
    }
  }

  lemma ApplyAllSnoc(t: Tables, ops: seq<Op>, op: Op)
    ensures ApplyAll(t, ops + [op]) == Apply(ApplyAll(t, ops), op)
  {
    assert (ops + [op])[..|ops|] == ops;
  }

  // ----- Addresses -----

  function Primary(local: string, name: string): string
  {
    Normalize(local + "@" + name)
  }

  function CatchAllAddress(name: string): string
  {
    Normalize("@" + Normalize(name))
  }

  predicate IsCatchAll(address: string)
  {
    address != "" && address[0] == '@'
  }

  function AliasAddresses(a: Account): set<string>
  {
    set alias | alias in a.aliases && Trim(alias) != "" :: Normalize(alias)
  }

  /** Every address an account answers to: its aliases and, while its domain exists, its primary. */
  function Addresses(t: Tables, a: Account): set<string>
  {
    AliasAddresses(a) +
    (if a.domainId in t.domains then {Primary(a.localPart, t.domains[a.domainId].name)} else {})
  }

  predicate Owns(t: Tables, x: u64, address: string)
  {
    x in t.accounts && address in Addresses(t, t.accounts[x])
  }

  // ----- What each operation does, stated on whole tables -----

  /** Entries after an account's addresses change from one set to another. */
  function Reassign(e: map<string, AddressEntry>, previous: set<string>, current: set<string>, x: u64):
    map<string, AddressEntry>
  {
    map a | a in e.Keys + current && (a in current || a !in previous)
      :: if a in current then AccountEntry(a, x) else e[a]
  }

  predicate Taken(e: map<string, AddressEntry>, previous: set<string>, current: set<string>, x: u64)
  {
    exists a | a in current && a !in previous && a in e :: e[a].AccountId() != Some(x)
  }

  function NonBlankNames(aliases: seq<string>): seq<string>
  {
    if aliases == [] then [] else
      var alias := NormalizeName(aliases[0]);
      (if alias == "" then [] else [alias]) + NonBlankNames(aliases[1..])
  }

  function NonBlank(aliases: seq<string>): (r: seq<string>)
    ensures forall x :: x in r <==> x in aliases && Trim(x) != ""
  {
    if aliases == [] then [] else
      (if Trim(aliases[0]) == "" then [] else [aliases[0]]) + NonBlank(aliases[1..])
  }

  function DomainCreate(t: Tables, name: string, aliases: seq<string>, id: u64, createdAt: nat): Result<Tables>
  {
    var n := NormalizeName(name);
    if n == "" || n in t.names then Err(InvalidInput)
    else Ok(t.(domains := t.domains[id := NewDomain(name, aliases, id, createdAt)], names := t.names[n := id]))
  }

  function NewDomain(name: string, aliases: seq<string>, id: u64, createdAt: nat): Domain
  {
    Domain(id, NormalizeName(name), NonBlankNames(aliases), true, None, [], Unverified, createdAt)
  }

  function Normalized(d: Domain): Domain
  {
    d.(name := NormalizeName(d.name), aliases := NonBlankNames(d.aliases))
  }

  predicate InDomain(t: Tables, x: u64, domain: u64)
  {
    x in t.accounts && t.accounts[x].domainId == domain
  }

  /** The primaries a domain's accounts have under a given domain name. */
  function Primaries(t: Tables, domain: u64, name: string): set<string>
  {
    set x | x in t.accounts && InDomain(t, x, domain) :: Primary(t.accounts[x].localPart, name)
  }

  predicate PrimaryTaken(t: Tables, domain: u64, name: string)
  {
    exists x | x in t.accounts && InDomain(t, x, domain) ::
      var a := Primary(t.accounts[x].localPart, name);
      a in t.entries && t.entries[a].AccountId() != Some(x)
  }

  ghost function PrimaryOwner(t: Tables, domain: u64, name: string, address: string): (x: u64)
    requires address in Primaries(t, domain, name)
    ensures InDomain(t, x, domain) && Primary(t.accounts[x].localPart, name) == address
  {
    var x :| x in t.accounts && InDomain(t, x, domain) && Primary(t.accounts[x].localPart, name) == address;
    x
  }

  /** Entries after some keys are dropped and some are set, a key that is both staying in. */
  function Replaced(e: map<string, AddressEntry>, gone: set<string>, put: map<string, u64>): map<string, AddressEntry>
  {
    map a | a in e.Keys + put.Keys && (a in put || a !in gone)
      :: if a in put then AccountEntry(a, put[a]) else e[a]
  }

  ghost function PrimaryRows(t: Tables, domain: u64, name: string): map<string, u64>
  {
    map a | a in Primaries(t, domain, name) :: PrimaryOwner(t, domain, name, a)
  }

  /** Entries after a rename: old primaries gone, new primaries in, every other entry kept. */
  ghost function Rekeyed(t: Tables, domain: u64, oldName: string, newName: string): map<string, AddressEntry>
  {
    Replaced(t.entries, Primaries(t, domain, oldName), PrimaryRows(t, domain, newName))
  }

  /** Entries after one key is dropped, if any, and then one is set, if any. */
  function Moved(e: map<string, AddressEntry>, gone: Option<string>, put: Option<(string, u64)>):
    map<string, AddressEntry>
  {
    var rest := if gone.Some? then e - {gone.value} else e;
    if put.Some? then rest[put.value.0 := AccountEntry(put.value.0, put.value.1)] else rest
  }

  function CatchAllKey(d: Domain): Option<string>
  {
    if d.catchAll.Some? then Some(CatchAllAddress(d.name)) else None
  }

  function CatchAllRow(d: Domain): Option<(string, u64)>
  {
    if d.catchAll.Some? then Some((CatchAllAddress(d.name), d.catchAll.value)) else None
  }

  ghost function DomainUpdate(t: Tables, d: Domain): Result<Tables>
  {
    if d.id !in t.domains then Err(NotFound) else
      var before := t.domains[d.id];
      var after := Normalized(d);
      if after.name == "" then Err(InvalidInput)
      else if after.name == before.name then
        Ok(t.(domains := t.domains[d.id := after],
              entries := Moved(t.entries, CatchAllKey(before), CatchAllRow(after))))
      else if (after.name in t.names && t.names[after.name] != d.id) || PrimaryTaken(t, d.id, after.name) then
        Err(InvalidInput)
      else
        Ok(t.(
           domains := t.domains[d.id := after],
           names := (t.names - {before.name})[after.name := d.id],
           entries := Moved(
             Rekeyed(t, d.id, before.name, after.name), CatchAllKey(before), CatchAllRow(after))))
  }

  function DomainDelete(t: Tables, id: u64): Result<Tables>
  {
    if id !in t.domains then Err(NotFound)
    else if exists x | x in t.accounts :: InDomain(t, x, id) then Err(InvalidInput)
    else
      var d := t.domains[id];
      Ok(t.(
         domains := t.domains - {id},
         names := t.names - {d.name},
         entries := Moved(t.entries, CatchAllKey(d), None)))
  }

  function NewAccount(local: string, domain: u64, displayName: string, role: Role, id: u64, createdAt: nat): Account
  {
    Account(id, Normalize(local), domain, displayName, true, role, [], createdAt)
  }

  function AccountCreate(t: Tables, a: Account): Result<Tables>
  {
    var current := Addresses(t, a);
    if a.localPart == "" || (a.domainId, a.localPart) in t.locals then Err(InvalidInput)
    else if "" in current || Taken(t.entries, {}, current, a.id) then Err(InvalidInput)
    else
      Ok(t.(
         accounts := t.accounts[a.id := a],
         locals := t.locals[(a.domainId, a.localPart) := a.id],
         entries := Reassign(t.entries, {}, current, a.id)))
  }

  function Tidied(a: Account): Account
  {
    a.(localPart := Normalize(a.localPart), aliases := NonBlank(a.aliases))
  }

  function AccountUpdate(t: Tables, account: Account): Result<Tables>
  {
    if account.id !in t.accounts then Err(NotFound) else
      var before := t.accounts[account.id];
      var a := Tidied(account);
      var slot, vacated := (a.domainId, a.localPart), (before.domainId, before.localPart);
      var previous, current := Addresses(t, before), Addresses(t, a);
      if a.localPart == "" then Err(InvalidInput)
      else if slot != vacated && slot in t.locals && t.locals[slot] != a.id then
        Err(InvalidInput)
      else if "" in current || "" in previous || Taken(t.entries, previous, current, a.id) then Err(InvalidInput)
      else
        Ok(t.(
           accounts := t.accounts[a.id := a],
           locals := if slot == vacated then t.locals else (t.locals - {vacated})[slot := a.id],
           entries := Reassign(t.entries, previous, current, a.id)))
  }

  function AccountDelete(t: Tables, id: u64): Result<Tables>
  {
    if id !in t.accounts then Err(NotFound) else
      var a := t.accounts[id];
      var previous := Addresses(t, a);
      if "" in previous then Err(InvalidInput)
      else
        Ok(t.(
           accounts := t.accounts - {id},
           locals := t.locals - {(a.domainId, a.localPart)},
           entries := Reassign(t.entries, previous, {}, id)))
  }
}
