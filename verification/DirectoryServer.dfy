/** The directory as the server runs it: both registries over one store and one id generator. Serving
    commands with the registries' own methods is a run of the tables. */
module DirectoryServer {
  import opened Store
  import opened DirectoryTables
  import opened DirectoryKeys
  import opened DirectoryInvariant
  import opened DirectoryRegistry
  import opened DomainRegistry
  import opened DirectoryRuns

  lemma EmptyStore()
    ensures Sound(map[]) && View(map[]) == EmptyTables
  {
    ViewIs(map[], EmptyTables);
  }

  class Directory {
    const store: Store<Value>
    const ids: IdGenerator
    const domains: DomainRegistry
    const accounts: AccountRegistry

    constructor (node: nat)
      ensures Wired() && fresh(store) && fresh(ids) && Sound(store.data) && Value() == Start(node)
    {
      var store := new Store<Value>();
      var ids := new IdGenerator(node);
      var addresses := new AddressIndex(store);
      var accounts := new AccountRegistry(store, ids, addresses);
      var domains := new DomainRegistry(store, ids, addresses, accounts);
      this.store, this.ids, this.domains, this.accounts := store, ids, domains, accounts;
      EmptyStore();
    }

    ghost predicate Wired()
    {
      && domains.store == accounts.store == store && domains.ids == accounts.ids == ids
      && domains.Wired() && accounts.Wired()
    }

    ghost function Value(): System
      reads store, ids
      requires Sound(store.data)
    {
      System(View(store.data), ids.last, ids.node)
    }

    /** One command, by the method that serves it. */
    method Perform(c: Command)
      requires Wired() && Sound(store.data) && Inv(Value().tables)
      modifies store, ids
      ensures Sound(store.data) && Value() == After(old(Value()), c)
    {
      match c
      case CreateDomain(name, aliases, now) =>
        var _ := domains.Create(name, aliases, now);
      case UpdateDomain(d) =>
        var _ := domains.Update(d);
      case DeleteDomain(id) =>
        var _ := domains.Delete(id);
      case CreateAccount(local, domain, displayName, role, now) =>
        var _ := accounts.Create(local, domain, displayName, role, now, (id, at) => []);
      case UpdateAccount(a) =>
        var _ := accounts.Update(a);
      case DeleteAccount(id) =>
        var _ := accounts.Delete(id);
    }

    /** Any number of commands, each within what its caller must respect when its turn comes. */
    method Serve(cs: seq<Command>, ghost end: System)
      requires Wired() && Sound(store.data) && Good(Value()) && Reaches(Value(), cs, end)
      modifies store, ids
      ensures Sound(store.data) && Value() == end && Good(end)
    {
      for i := 0 to |cs|
        invariant Sound(store.data) && Good(Value()) && Reaches(Value(), cs[i..], end)
      {
        StepKeeps(Value(), cs[i]);
        assert cs[i..][1..] == cs[i + 1..];
        Perform(cs[i]);
      }
    }
  }

  /** Started on an empty store, the registries leave the directory a run of commands leads to: coherent,
      every address resolving exactly to the one account that owns it. */
  method ServeFromStart(node: nat, cs: seq<Command>, ghost end: System) returns (directory: Directory)
    requires Reaches(Start(node), cs, end)
    ensures Sound(directory.store.data) && directory.Value() == end && Inv(directory.Value().tables)
    ensures forall a | !IsCatchAll(a) :: a in directory.Value().tables.entries <==>
              exists x :: Owns(end.tables, x, a) && directory.Value().tables.entries[a] == AccountEntry(a, x)
  {
    directory := new Directory(node);
    directory.Serve(cs, end);
    ReachableStatesExact(node, cs, end);
  }
}
