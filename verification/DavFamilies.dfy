/** Runs of a whole family, collections created and deleted under objects written and removed: when every
    live object has a live parent, in every state of every run. */
module DavFamilies {
  import opened DavStore
  import opened DavObjects

  datatype Command =
    | Make(name: string, displayName: string, now: nat)
    | Save(saved: Parent, now: nat)
    | Put(parent: nat, name: string, body: string, now: nat)
    | Remove(parent: nat, name: string)
    | Drop(id: nat)
    | Interrupted(id: nat, batches: nat)
    | FailedParent(drewId: bool, drewChange: bool)
    | FailedObject(drewId: bool, drewChange: bool)
    | PruneParents(keep: nat)
    | PruneObjects(keep: nat)

  function Made(c: Coll<Parent>, name: string, displayName: string, now: nat): Coll<Parent>
  {
    var (c', id) := Allocated(c);
    WriteRecord(c', id, Parent(id, name, displayName, now, now), Insert)
  }

  /** Some of the batches of a deletion were applied, and not the last one. */
  ghost predicate DropsSome(f: Family, id: nat, batches: nat, f': Family)
  {
    exists ids :: Children(f, id, ids) && batches <= |ids| && f' == DropChildren(f, ids[..batches])
  }

  ghost predicate Steps(f: Family, c: Command, f': Family)
  {
    match c
    case Make(name, displayName, now) => f' == f.(parents := Made(f.parents, name, displayName, now))
    case Save(parent, now) =>
      f' == f.(parents := WriteRecord(f.parents, parent.id, parent.(modified := now), Update))
    case Put(parent, name, body, now) => f' == f.(objects := Upsert(f.objects, parent, name, body, now))
    case Remove(parent, name) => f' == f.(objects := DeleteByName(f.objects, parent, name))
    case Drop(id) => if id in f.parents.rows then DropsParent(f, id, f') else f' == f
    case Interrupted(id, batches) => if id in f.parents.rows then DropsSome(f, id, batches, f') else f' == f
    case FailedParent(drewId, drewChange) => f' == f.(parents := Lost(f.parents, drewId, drewChange))
    case FailedObject(drewId, drewChange) => f' == f.(objects := Lost(f.objects, drewId, drewChange))
    case PruneParents(keep) => f' == f.(parents := Prune(f.parents, keep))
    case PruneObjects(keep) => f' == f.(objects := Prune(f.objects, keep))
  }

  /** The command is carried out to its end. */
  predicate Completes(c: Command)
  {
    !c.Interrupted? && !c.FailedParent? && !c.FailedObject?
  }

  /** What a step may ask: an object is written under a live parent. */
  predicate UnderLiveParent(f: Family, c: Command)
  {
    c.Put? ==> c.parent in f.parents.rows
  }

  lemma DropOrphansNothing(f: Family, id: nat, f': Family)
    requires NoOrphans(f) && DropsParent(f, id, f')
    ensures NoOrphans(f')
  {
    var ids :| Children(f, id, ids) && f' == DropParent(DropChildren(f, ids), id);
    DeleteParentExact(f, id, ids);
  }

  lemma SomeOrphansNothing(f: Family, id: nat, batches: nat, f': Family)
    requires NoOrphans(f) && DropsSome(f, id, batches, f')
    ensures NoOrphans(f')
  {
    var ids :| Children(f, id, ids) && batches <= |ids| && f' == DropChildren(f, ids[..batches]);
    DropChildrenRows(f, ids[..batches]);
  }

  lemma StepOrphansIff(f: Family, c: Command, f': Family)
    requires NoOrphans(f) && Steps(f, c, f')
    ensures NoOrphans(f') <==> UnderLiveParent(f, c)
  {
    match c
    case Put(parent, name, body, now) => UpsertOrphansIff(f, parent, name, body, now);
    case Remove(parent, name) => DeleteOrphansNothing(f, parent, name);
    case Drop(id) => if id in f.parents.rows { DropOrphansNothing(f, id, f'); }
    case Interrupted(id, batches) => if id in f.parents.rows { SomeOrphansNothing(f, id, batches, f'); }
    case _ =>
  }

  datatype Run = Run(commands: seq<Command>, states: seq<Family>) {
    ghost predicate Valid()
    {
      && |states| == |commands| + 1 && states[0] == Family(EmptyColl(), EmptyColl())
      && (forall i | 0 <= i < |commands| :: Steps(states[i], commands[i], states[i + 1]))
    }

    ghost predicate Clean(n: nat)
      requires n < |states|
    {
      forall i | 0 <= i <= n :: NoOrphans(states[i])
    }

    ghost predicate Careful(n: nat)
      requires n <= |commands| < |states|
    {
      forall i | 0 <= i < n :: UnderLiveParent(states[i], commands[i])
    }
  }

  /** The run serves the first i commands and ends in f. */
  ghost predicate Ends(run: Run, commands: seq<Command>, i: nat, f: Family)
    requires i <= |commands|
  {
    run.Valid() && run.commands == commands[..i] && run.states[i] == f
  }

  function Longer(run: Run, c: Command, f: Family): Run
  {
    Run(run.commands + [c], run.states + [f])
  }

  lemma RunExtends(run: Run, commands: seq<Command>, i: nat, f: Family, f': Family)
    requires i < |commands| && Ends(run, commands, i, f) && Steps(f, commands[i], f')
    ensures Ends(Longer(run, commands[i], f'), commands, i + 1, f')
  {
    var longer := Longer(run, commands[i], f');
    forall k | 0 <= k < |longer.commands| ensures Steps(longer.states[k], longer.commands[k], longer.states[k + 1]) {
      if k < i { assert Steps(run.states[k], run.commands[k], run.states[k + 1]); }
    }
  }

  /** In every run and up to every moment: no object has ever been without its parent exactly when none was
      ever written under a parent not alive. Deleting a parent, even halfway, and writes that fail never do. */
  lemma {:induction false} NeverOrphansIff(run: Run, n: nat)
    requires run.Valid() && n <= |run.commands|
    ensures run.Clean(n) <==> run.Careful(n)
  {
    if n > 0 {
      NeverOrphansIff(run, n - 1);
      assert Steps(run.states[n - 1], run.commands[n - 1], run.states[n - 1 + 1]);
      if NoOrphans(run.states[n - 1]) { StepOrphansIff(run.states[n - 1], run.commands[n - 1], run.states[n]); }
    }
  }

  // ----- The objects make such runs -----

  method Perform(family: DavFamily, c: Command)
    requires family.Valid() && Completes(c)
    modifies family.parents, family.objects
    ensures family.Valid() && Steps(old(family.Value()), c, family.Value())
  {
    match c
    case Make(name, displayName, now) =>
      var _ := family.Create(name, displayName, now);
    case Save(parent, now) =>
      family.Save(parent, now);
    case Put(parent, name, body, now) =>
      var _, _ := family.Upsert(parent, name, body, now);
    case Remove(parent, name) =>
      var _ := family.Delete(parent, name);
    case Drop(id) =>
      var _ := family.DeleteParent(id);
    case PruneParents(keep) =>
      family.parents.Prune(keep);
    case PruneObjects(keep) =>
      family.objects.Prune(keep);
  }

  method Serve(commands: seq<Command>) returns (family: DavFamily, ghost run: Run)
    requires forall i | 0 <= i < |commands| :: Completes(commands[i])
    ensures run.Valid() && run.commands == commands && run.states[|commands|] == family.Value()
    ensures run.Clean(|commands|) <==> run.Careful(|commands|)
  {
    family := new DavFamily();
    run := Run([], [family.Value()]);
    for i := 0 to |commands|
      invariant fresh(family.parents) && fresh(family.objects) && family.Valid()
      invariant Ends(run, commands, i, family.Value())
    {
      ghost var before := family.Value();
      Perform(family, commands[i]);
      RunExtends(run, commands, i, before, family.Value());
      run := Longer(run, commands[i], family.Value());
    }
    assert commands[..|commands|] == commands;
    NeverOrphansIff(run, |commands|);
  }
}
