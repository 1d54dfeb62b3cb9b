/** Runs of the calendar and contact store seen by one synchronizing client: edits, failed batches,
    prunes, deletions of whole collections and page requests in any order. */
module DavRuns {
  import opened Common
  import opened DavStore
  import opened DavSync

  // ----- An edit keeps a client synced to the token it holds -----

  lemma ByNameSame(c: Coll<Object>, c': Coll<Object>, parent: nat, name: string)
    requires NamesWell(c) && NamesWell(c')
    requires forall x | x in c.rows && Named(c.rows[x], parent, name) :: x in c'.rows && c'.rows[x] == c.rows[x]
    requires forall x | x in c'.rows && Named(c'.rows[x], parent, name) :: x in c.rows && c'.rows[x] == c.rows[x]
    ensures ByName(c', parent, name) == ByName(c, parent, name)
  {
    if ByName(c, parent, name).Some? {
      var id :| IsFirstNamed(c, parent, name, id);
      ByNameUnique(c, parent, name, id);
      ByNameUnique(c', parent, name, id);
    }
  }

  /** c' is c after one edit of document id, logged as entry e. */
  ghost predicate Edited(c: Coll<Object>, c': Coll<Object>, e: Entry)
  {
    && e.changeId == c.lastChange + 1 == c'.lastChange
    && Grown(c.log, c'.log, e)
    && c'.floor == c.floor
    && (forall x | x != e.document :: x in c'.rows <==> x in c.rows)
    && (forall x | x != e.document && x in c.rows :: c'.rows[x] == c.rows[x])
    && (forall x | x != e.document :: x in c'.tombs <==> x in c.tombs)
    && (forall x | x != e.document && x in c.tombs :: c'.tombs[x] == c.tombs[x])
    && e.document !in c.tombs
    && (e.document in c'.tombs ==> c'.tombs[e.document].changeId == e.changeId)
    && (e.document in c.rows <==> FirstOf(c.log, e.document).Some?)
    && (e.document in c'.rows || e.document in c'.tombs)
    && (e.document in c.rows && e.document in c'.rows ==>
          Named(c'.rows[e.document], c.rows[e.document].parent, c.rows[e.document].name))
    && (e.document in c.rows && e.document in c'.tombs ==>
          Named(c.rows[e.document], c'.tombs[e.document].parent, c'.tombs[e.document].name))
  }

  lemma BearersKept(c: Coll<Object>, c': Coll<Object>, e: Entry, parent: nat, name: string, id: nat)
    requires CollInv(c) && CollInv(c') && Edited(c, c', e) && Bears(c, parent, name, id)
    ensures Bears(c', parent, name, id) && Born(c', id) == Born(c, id)
  {
    LastEntryFacts(c, id);
  }

  lemma EditAgrees(client: Client, c: Coll<Object>, c': Coll<Object>, e: Entry, parent: nat, t: nat, name: string)
    requires CollInv(c) && CollInv(c') && Edited(c, c', e) && SyncedTo(client, c, parent, t)
    requires Untouched(c', parent, name, t)
    ensures AgreeAt(client, c', parent, name)
  {
    assert e in c'.log && !Bears(c', parent, name, e.document);
    forall d | d in c.log && d.changeId > t ensures !Bears(c, parent, name, d.document) {
      assert d in c'.log;
      if Bears(c, parent, name, d.document) { BearersKept(c, c', e, parent, name, d.document); }
    }
    assert Untouched(c, parent, name, t);
    if Bears(c, parent, name, e.document) { BearersKept(c, c', e, parent, name, e.document); }
    ByNameSame(c, c', parent, name);
  }

  lemma EditKeepsSync(client: Client, c: Coll<Object>, c': Coll<Object>, e: Entry, parent: nat, t: nat)
    requires CollInv(c) && CollInv(c') && Edited(c, c', e) && SyncedTo(client, c, parent, t)
    ensures SyncedTo(client, c', parent, t)
  {
    forall name | Untouched(c', parent, name, t) ensures AgreeAt(client, c', parent, name) {
      EditAgrees(client, c, c', e, parent, t, name);
    }
    forall name | name in client ensures exists id :: Backs(c', parent, name, t, id) {
      var id :| Backs(c, parent, name, t, id);
      BackersKept(c, c', e, parent, name, t, id);
    }
  }

  lemma BackersKept(c: Coll<Object>, c': Coll<Object>, e: Entry, parent: nat, name: string, t: nat, id: nat)
    requires CollInv(c) && CollInv(c') && Edited(c, c', e) && t <= c.lastChange && Backs(c, parent, name, t, id)
    ensures Backs(c', parent, name, t, id)
  {
    BearersKept(c, c', e, parent, name, id);
  }

  lemma WriteEdits(c: Coll<Object>, c1: Coll<Object>, o: Object, kind: Kind)
    requires LogWell(c) && c1 == c.(lastId := c1.lastId) && kind != Delete
    requires o.id !in c.tombs && (o.id in c.rows <==> FirstOf(c.log, o.id).Some?)
    requires o.id in c.rows ==> Named(o, c.rows[o.id].parent, c.rows[o.id].name)
    ensures Edited(c, WriteRecord(c1, o.id, o, kind), Entry(c.lastChange + 1, o.id, kind))
  {
    SnocGrows(c.log, Entry(c.lastChange + 1, o.id, kind));
  }

  lemma UpsertEdits(c: Coll<Object>, parent: nat, name: string, body: string, now: nat) returns (e: Entry)
    requires CollInv(c) && IdsLeft(c)
    ensures Edited(c, Upsert(c, parent, name, body, now), e)
  {
    var existing := ByName(c, parent, name);
    if existing.Some? {
      var id :| IsFirstNamed(c, parent, name, id) && existing.value == c.rows[id];
      LiveHasFirst(c, id);
      WriteEdits(c, c, existing.value.(body := body, modified := now), Update);
      e := Entry(c.lastChange + 1, id, Update);
    } else {
      var (c1, id) := Allocated(c);
      AllocateKeeps(c);
      NoEntries(c, id);
      WriteEdits(c, c1, Object(id, parent, name, body, now, now), Insert);
      e := Entry(c.lastChange + 1, id, Insert);
    }
  }

  lemma DeleteEdits(c: Coll<Object>, id: nat)
    requires LogWell(c) && id in c.rows && id !in c.tombs && FirstOf(c.log, id).Some?
    ensures Edited(c, DeleteRecord(c, id, c.rows[id].parent, c.rows[id].name), Entry(c.lastChange + 1, id, Delete))
  {
    SnocGrows(c.log, Entry(c.lastChange + 1, id, Delete));
  }

  lemma DropEdits(c: Coll<Object>, id: nat)
    requires CollInv(c) && id in c.rows
    ensures Edited(c, DeleteRecord(c, id, c.rows[id].parent, c.rows[id].name), Entry(c.lastChange + 1, id, Delete))
  {
    LiveHasFirst(c, id);
    DeleteEdits(c, id);
  }

  lemma SameRecordsSync(client: Client, c: Coll<Object>, c': Coll<Object>, parent: nat, t: nat)
    requires CollInv(c) && CollInv(c') && SyncedTo(client, c, parent, t)
    requires c'.rows == c.rows && c'.tombs == c.tombs && c'.log == c.log && c.lastChange <= c'.lastChange
    ensures SyncedTo(client, c', parent, t)
  {
    forall name | Untouched(c', parent, name, t) ensures AgreeAt(client, c', parent, name) {
      assert Untouched(c, parent, name, t);
      ByNameSame(c, c', parent, name);
    }
    forall name | name in client ensures exists id :: Backs(c', parent, name, t, id) {
      var id :| Backs(c, parent, name, t, id);
      assert Backs(c', parent, name, t, id);
    }
  }

  // ----- What was written is what is read -----

  /** The object written under a name: its body and time are the new ones, its id and birth the old ones if
      it was there, else an id never used. */
  ghost predicate Written(c: Coll<Object>, parent: nat, name: string, body: string, now: nat, r: Option<Object>)
  {
    var was := ByName(c, parent, name);
    && r.Some? && Named(r.value, parent, name) && r.value.body == body && r.value.modified == now
    && if was.Some? then r.value.id == was.value.id && r.value.created == was.value.created
       else r.value.id !in c.rows && r.value.id !in c.tombs && r.value.created == now
  }

  lemma UpsertReadsBack(c: Coll<Object>, parent: nat, name: string, body: string, now: nat)
    requires CollInv(c) && IdsLeft(c)
    ensures Written(c, parent, name, body, now, ByName(Upsert(c, parent, name, body, now), parent, name))
  {
    var c' := Upsert(c, parent, name, body, now);
    UpsertKeeps(c, parent, name, body, now);
    var was := ByName(c, parent, name);
    if was.Some? {
      var id :| IsFirstNamed(c, parent, name, id) && was.value == c.rows[id];
      ByNameUnique(c', parent, name, id);
    } else {
      AllocateKeeps(c);
      ByNameUnique(c', parent, name, Allocated(c).1);
    }
  }

  lemma OneRowKeepsNames(c: Coll<Object>, c': Coll<Object>, o: Object, p: nat, n: string)
    requires NamesWell(c) && NamesWell(c') && c'.rows == c.rows[o.id := o] && !Named(o, p, n)
    requires o.id in c.rows ==> !Named(c.rows[o.id], p, n)
    ensures ByName(c', p, n) == ByName(c, p, n)
  {
    ByNameSame(c, c', p, n);
  }

  lemma UpsertKeepsNames(c: Coll<Object>, parent: nat, name: string, body: string, now: nat, p: nat, n: string)
    requires CollInv(c) && IdsLeft(c) && (p != parent || n != name)
    ensures ByName(Upsert(c, parent, name, body, now), p, n) == ByName(c, p, n)
  {
    var c' := Upsert(c, parent, name, body, now);
    UpsertKeeps(c, parent, name, body, now);
    var was := ByName(c, parent, name);
    if was.Some? {
      var id :| IsFirstNamed(c, parent, name, id) && was.value == c.rows[id];
      OneRowKeepsNames(c, c', was.value.(body := body, modified := now), p, n);
    } else {
      var id := Allocated(c).1;
      AllocateKeeps(c);
      OneRowKeepsNames(c, c', Object(id, parent, name, body, now, now), p, n);
    }
  }

  /** After a deletion the name leads nowhere and every other name where it did. */
  lemma DeleteReadsBack(c: Coll<Object>, parent: nat, name: string, p: nat, n: string)
    requires CollInv(c)
    ensures ByName(DeleteByName(c, parent, name), p, n) == if p == parent && n == name then None else ByName(c, p, n)
  {
    var c' := DeleteByName(c, parent, name);
    DeleteByNameKeeps(c, parent, name);
    if ByName(c, parent, name).Some? {
      var id :| IsFirstNamed(c, parent, name, id) && ByName(c, parent, name).value == c.rows[id];
      assert c'.rows == c.rows - {id};
      if p == parent && n == name {
        forall x | x in c'.rows ensures !Named(c'.rows[x], parent, name) {
          assert !Named(c.rows[x], c.rows[id].parent, c.rows[id].name);
        }
      } else {
        ByNameSame(c, c', p, n);
      }
    }
  }

  // ----- A first synchronization, without a token -----

  /** Every live object of the parent, by name. */
  ghost function Listing(c: Coll<Object>, parent: nat): Client
    requires NamesWell(c)
  {
    map id | id in c.rows && c.rows[id].parent == parent :: c.rows[id].name := c.rows[id]
  }

  lemma ListingAt(c: Coll<Object>, parent: nat, name: string)
    requires NamesWell(c)
    ensures AgreeAt(Listing(c, parent), c, parent, name)
    ensures name in Listing(c, parent) ==> exists id :: id in c.rows && Named(c.rows[id], parent, name)
  {
    var client := Listing(c, parent);
    if name in client {
      var id :| id in c.rows && c.rows[id].parent == parent && c.rows[id].name == name && client[name] == c.rows[id];
      assert Named(c.rows[id], parent, name);
      ByNameUnique(c, parent, name, id);
    }
  }

  lemma ListingIsSynced(c: Coll<Object>, parent: nat)
    requires CollInv(c)
    ensures SyncedTo(Listing(c, parent), c, parent, c.lastChange)
    ensures InSync(Listing(c, parent), c, parent)
  {
    var client := Listing(c, parent);
    forall name ensures AgreeAt(client, c, parent, name) { ListingAt(c, parent, name); }
    forall name | name in client ensures exists id :: Backs(c, parent, name, c.lastChange, id) {
      ListingAt(c, parent, name);
      var id :| id in c.rows && Named(c.rows[id], parent, name);
      LastEntryFacts(c, id);
      assert Backs(c, parent, name, c.lastChange, id);
    }
  }

  // ----- Runs -----

  datatype Event =
    | Put(parent: nat, name: string, body: string, now: nat)
    | Remove(parent: nat, name: string)
    | Drop(id: nat)
    | Failed(drewId: bool, drewChange: bool)
    | Pruned(keep: nat)
    | Listed
    | Asked(limit: Option<nat>)

  /** The store, and a client of one parent's objects with the token it last received. */
  datatype World = World(objects: Coll<Object>, parent: nat, client: Client, token: Option<nat>)

  ghost function Step(w: World, event: Event): World
    requires NamesWell(w.objects)
  {
    var c := w.objects;
    match event
    case Put(parent, name, body, now) => w.(objects := Upsert(c, parent, name, body, now))
    case Remove(parent, name) => w.(objects := DeleteByName(c, parent, name))
    case Drop(id) => if id in c.rows then w.(objects := DeleteRecord(c, id, c.rows[id].parent, c.rows[id].name)) else w
    case Failed(drewId, drewChange) => w.(objects := Lost(c, drewId, drewChange))
    case Pruned(keep) => w.(objects := Prune(c, keep))
    case Listed => w.(client := Listing(c, w.parent), token := Some(c.lastChange))
    case Asked(limit) =>
      if w.token.None? then w else
        var page := Report(c, w.parent, w.token.value, limit);
        RowsAreRelevant(c, w.parent, w.token.value, limit);
        w.(client := ApplyRows(w.client, c, w.parent, page.rows), token := Some(page.token))
  }

  lemma RowsAreRelevant(c: Coll<Object>, parent: nat, t: nat, limit: Option<nat>)
    ensures AllRelevant(c, parent, Report(c, parent, t, limit).rows)
  {
    var rows := AllRows(c, parent, t);
    forall e | e in Report(c, parent, t, limit).rows ensures Relevant(c, parent, e) {
      assert e in rows;
      IncludedExact(c, parent, Coalesce(ChangesSince(c, t)), e);
    }
  }

  /** Ids have not run out, and pruning has not overtaken the token a page is asked for. */
  predicate Fair(w: World, event: Event)
  {
    match event
    case Put(_, _, _, _) => IdsLeft(w.objects)
    case Failed(drewId, _) => drewId ==> IdsLeft(w.objects)
    case Asked(_) => w.token.Some? ==> w.objects.floor <= w.token.value
    case _ => true
  }

  ghost predicate Healthy(w: World)
  {
    CollInv(w.objects) && (w.token.Some? ==> SyncedTo(w.client, w.objects, w.parent, w.token.value))
  }

  lemma PutHealthy(w: World, parent: nat, name: string, body: string, now: nat)
    requires Healthy(w) && IdsLeft(w.objects)
    ensures Healthy(Step(w, Put(parent, name, body, now)))
  {
    UpsertKeeps(w.objects, parent, name, body, now);
    var e := UpsertEdits(w.objects, parent, name, body, now);
    if w.token.Some? {
      EditKeepsSync(w.client, w.objects, Upsert(w.objects, parent, name, body, now), e, w.parent, w.token.value);
    }
  }

  lemma DropKeepsSync(client: Client, c: Coll<Object>, id: nat, parent: nat, t: nat)
    requires CollInv(c) && id in c.rows && SyncedTo(client, c, parent, t)
    ensures SyncedTo(client, DeleteRecord(c, id, c.rows[id].parent, c.rows[id].name), parent, t)
  {
    DropKeeps(c, id);
    DropEdits(c, id);
    EditKeepsSync(client, c, DeleteRecord(c, id, c.rows[id].parent, c.rows[id].name),
                  Entry(c.lastChange + 1, id, Delete),
                  parent, t);
  }

  lemma DropHealthy(w: World, id: nat)
    requires Healthy(w)
    ensures Healthy(Step(w, Drop(id)))
  {
    if id in w.objects.rows {
      DropKeeps(w.objects, id);
      if w.token.Some? { DropKeepsSync(w.client, w.objects, id, w.parent, w.token.value); }
    }
  }

  /** Deleting by name is dropping the document the name leads to. */
  lemma RemoveIsDrop(w: World, parent: nat, name: string) returns (id: nat)
    requires CollInv(w.objects)
    ensures Step(w, Remove(parent, name)) == if ByName(w.objects, parent, name).Some? then Step(w, Drop(id)) else w
  {
    id := 0;
    if ByName(w.objects, parent, name).Some? {
      id :| IsFirstNamed(w.objects, parent, name, id) && w.objects.rows[id] == ByName(w.objects, parent, name).value;
    }
  }

  lemma QuietHealthy(w: World, c': Coll<Object>)
    requires Healthy(w) && CollInv(c') && c'.rows == w.objects.rows && c'.tombs == w.objects.tombs
    requires c'.log == w.objects.log && w.objects.lastChange <= c'.lastChange
    ensures Healthy(w.(objects := c'))
  {
    if w.token.Some? { SameRecordsSync(w.client, w.objects, c', w.parent, w.token.value); }
  }

  lemma StepKeeps(w: World, event: Event)
    requires Healthy(w) && Fair(w, event)
    ensures Healthy(Step(w, event))
  {
    match event
    case Put(parent, name, body, now) => PutHealthy(w, parent, name, body, now);
    case Remove(parent, name) =>
      var id := RemoveIsDrop(w, parent, name);
      DropHealthy(w, id);
    case Drop(id) => DropHealthy(w, id);
    case Failed(drewId, drewChange) =>
      LostKeeps(w.objects, drewId, drewChange);
      QuietHealthy(w, Lost(w.objects, drewId, drewChange));
    case Pruned(keep) =>
      PruneKeeps(w.objects, keep);
      QuietHealthy(w, Prune(w.objects, keep));
    case Listed => ListingIsSynced(w.objects, w.parent);
    case Asked(limit) =>
      if w.token.Some? { PageKeepsSync(w.client, w.objects, w.parent, w.token.value, limit); }
  }

  /** w' is reached from w by these events, each fair when it happens. */
  ghost predicate Reaches(w: World, events: seq<Event>, w': World)
    decreases |events|
  {
    if events == [] then w' == w else
      && NamesWell(w.objects) && Fair(w, events[0])
      && Reaches(Step(w, events[0]), events[1..], w')
  }

  lemma {:induction false} RunKeeps(w: World, events: seq<Event>, w': World)
    requires Healthy(w) && Reaches(w, events, w')
    ensures Healthy(w')
    decreases |events|
  {
    if events != [] {
      StepKeeps(w, events[0]);
      RunKeeps(Step(w, events[0]), events[1..], w');
    }
  }

  function Fresh(parent: nat): World
  {
    World(EmptyColl(), parent, map[], None)
  }

  lemma FreshIsHealthy(parent: nat)
    ensures Healthy(Fresh(parent))
  {
  }

  lemma WholePageConverges(w: World, limit: Option<nat>)
    requires Healthy(w) && w.token.Some? && w.objects.floor <= w.token.value
    requires !Truncated(w.objects, w.parent, w.token.value, limit)
    ensures InSync(Step(w, Asked(limit)).client, w.objects, w.parent) && Step(w, Asked(limit)).objects == w.objects
  {
    FullPageIsInSync(w.client, w.objects, w.parent, w.token.value, limit);
  }

  /** However edits, failures, prunes, listings and cut or whole pages interleave, once a page comes back
      whole the client's copy is the live collection. */
  lemma ClientConverges(parent: nat, events: seq<Event>, w: World, limit: Option<nat>)
    requires Reaches(Fresh(parent), events, w) && Fair(w, Asked(limit))
    requires w.token.Some? && !Truncated(w.objects, w.parent, w.token.value, limit)
    ensures CollInv(w.objects)
    ensures InSync(Step(w, Asked(limit)).client, w.objects, w.parent) && Step(w, Asked(limit)).objects == w.objects
  {
    FreshIsHealthy(parent);
    RunKeeps(Fresh(parent), events, w);
    WholePageConverges(w, limit);
  }

  // ----- The prune floor is the exact limit -----

  /** A whole report from token t is enough for this client. */
  ghost predicate ReportSuffices(client: Client, c: Coll<Object>, parent: nat, t: nat)
  {
    var rows := Report(c, parent, t, None).rows;
    AllRelevant(c, parent, rows) && InSync(ApplyRows(client, c, parent, rows), c, parent)
  }

  ghost predicate Suffices(t: nat, floor: nat)
  {
    forall client, c, parent | CollInv(c) && c.floor == floor && SyncedTo(client, c, parent, t) ::
      ReportSuffices(client, c, parent, t)
  }

  /** Two objects: one inserted right after token t and pruned away, one inserted after the floor. */
  function Overtaken(t: nat, floor: nat): Coll<Object>
  {
    Coll(map[1 := Object(1, 7, "n", "", 0, 0), 2 := Object(2, 7, "m", "", 0, 0)], map[], 2, floor + 1,
         [Entry(t + 1, 1, Insert), Entry(floor + 1, 2, Insert)], floor)
  }

  lemma OvertakenLog(t: nat, floor: nat)
    requires t < floor
    ensures var log := Overtaken(t, floor).log;
            && (forall id ::
                  LastOf(log, id) == if id == 2 then Some(log[1]) else if id == 1 then Some(log[0]) else None)
            && (forall id :: FirstOf(log, id) == LastOf(log, id))
  {
    var a, b := Entry(t + 1, 1, Insert), Entry(floor + 1, 2, Insert);
    assert [a, b] == [a] + [b] && [a] == [] + [a];
    forall id ensures LastOf([a, b], id) == (if id == 2 then Some(b) else if id == 1 then Some(a) else None)
      ensures FirstOf([a, b], id) == LastOf([a, b], id)
    {
      LastOfSnoc([a], b, id);
      LastOfSnoc([], a, id);
    }
  }

  lemma OvertakenIsReal(t: nat, floor: nat)
    requires t < floor
    ensures CollInv(Overtaken(t, floor)) && SyncedTo(map[], Overtaken(t, floor), 7, t)
  {
    var c := Overtaken(t, floor);
    OvertakenLog(t, floor);
    assert c.log[0] in c.log && c.log[1] in c.log;
    forall name | Untouched(c, 7, name, t) ensures AgreeAt(map[], c, 7, name) {
      assert !Bears(c, 7, name, 1) && !Bears(c, 7, name, 2);
    }
  }

  lemma OvertakenMisses(t: nat, floor: nat)
    requires t < floor
    ensures !ReportSuffices(map[], Overtaken(t, floor), 7, t)
  {
    var c := Overtaken(t, floor);
    var rows := Report(c, 7, t, None).rows;
    OvertakenIsReal(t, floor);
    RowsAreRelevant(c, 7, t, None);
    forall e | e in rows ensures e.document != 1 {
      IncludedExact(c, 7, Coalesce(ChangesSince(c, t)), e);
      StandingExact(ChangesSince(c, t), ChangesSince(c, t), e);
      SinceExact(c.log, floor, e);
    }
    AllRowsAscend(c, 7, t);
    ApplyRowsAt(map[], c, 7, rows, "n");
    LastWordFacts(c, 7, rows, "n");
    ByNameUnique(c, 7, "n", 1);
    assert !AgreeAt(ApplyRows(map[], c, 7, rows), c, 7, "n");
  }

  /** A report from token t serves every client that holds t exactly when pruning has not gone past t. */
  lemma ReportSufficesIff(t: nat, floor: nat)
    ensures Suffices(t, floor) <==> floor <= t
  {
    if floor <= t {
      forall client, c, parent | CollInv(c) && c.floor == floor && SyncedTo(client, c, parent, t)
        ensures ReportSuffices(client, c, parent, t)
      {
        FullPageIsInSync(client, c, parent, t, None);
      }
    } else {
      OvertakenIsReal(t, floor);
      OvertakenMisses(t, floor);
    }
  }

  // The same, over the states the code reaches.

  lemma {:induction false} ReachesConcat(w: World, a: seq<Event>, mid: World, b: seq<Event>, w': World)
    requires Reaches(w, a, mid) && Reaches(mid, b, w')
    ensures Reaches(w, a + b, w')
    decreases |a|
  {
    if a == [] {
      assert a + b == b;
    } else {
      assert (a + b)[1..] == a[1..] + b;
      ReachesConcat(Step(w, a[0]), a[1..], mid, b, w');
    }
  }

  /** Some fair events lead from w to w'. */
  ghost predicate Leads(w: World, w': World)
  {
    exists events :: Reaches(w, events, w')
  }

  lemma LeadsOn(w: World, mid: World, w': World)
    requires Leads(w, mid) && Leads(mid, w')
    ensures Leads(w, w')
  {
    var a :| Reaches(w, a, mid);
    var b :| Reaches(mid, b, w');
    ReachesConcat(w, a, mid, b, w');
  }

  lemma LeadsStep(w: World, event: Event, w': World)
    requires NamesWell(w.objects) && Fair(w, event) && Step(w, event) == w'
    ensures Leads(w, w')
  {
    assert Reaches(w', [], w') && [event][1..] == [];
    assert Reaches(w, [event], w');
  }

  /** Writes that fail after drawing a change id leave only a gap. */
  lemma {:induction false} Gap(w: World, n: nat)
    requires NamesWell(w.objects)
    ensures Leads(w, w.(objects := w.objects.(lastChange := w.objects.lastChange + n)))
  {
    if n == 0 {
      assert Reaches(w, [], w);
    } else {
      Gap(w, n - 1);
      var mid := w.(objects := w.objects.(lastChange := w.objects.lastChange + (n - 1)));
      var end := w.(objects := w.objects.(lastChange := w.objects.lastChange + n));
      LeadsStep(mid, Failed(false, true), end);
      LeadsOn(w, mid, end);
    }
  }

  /** One object, inserted right after token t. */
  function OneObject(t: nat, lastChange: nat): Coll<Object>
  {
    Coll(map[1 := Object(1, 7, "n", "", 0, 0)], map[], 1, lastChange, [Entry(t + 1, 1, Insert)], 0)
  }

  function Gapped(t: nat): Coll<Object>
  {
    EmptyColl<Object>().(lastChange := t)
  }

  lemma FirstPut(t: nat)
    ensures Upsert(Gapped(t), 7, "n", "", 0) == OneObject(t, t + 1)
  {
  }

  lemma SecondPut(t: nat, floor: nat)
    requires t < floor
    ensures Upsert(OneObject(t, floor), 7, "m", "", 0) == Overtaken(t, floor).(floor := 0)
  {
    var c := OneObject(t, floor);
    assert ByName(c, 7, "m") == None by {
      forall id | id in c.rows ensures !Named(c.rows[id], 7, "m") {}
    }
    assert Allocated(c).1 == 2;
  }

  lemma PruneOvertakes(t: nat, floor: nat)
    requires t < floor
    ensures Prune(Overtaken(t, floor).(floor := 0), 1) == Overtaken(t, floor)
  {
    var c := Overtaken(t, floor).(floor := 0);
    assert c.log[0] in c.log && 0 < c.log[0].changeId <= floor;
  }

  /** A client that listed an empty collection at token t, over this collection. */
  function ListedAt(t: nat, c: Coll<Object>): World
  {
    World(c, 7, map[], Some(t))
  }

  lemma ListsNothing(t: nat)
    ensures Listing(Gapped(t), 7) == map[]
  {
  }

  lemma ListingStep(t: nat, c: Coll<Object>)
    requires c == Gapped(t)
    ensures Leads(World(c, 7, map[], None), ListedAt(t, c))
  {
    ListsNothing(t);
    LeadsStep(World(c, 7, map[], None), Listed, ListedAt(t, c));
  }

  lemma PutStep(t: nat, c: Coll<Object>, name: string, c': Coll<Object>)
    requires NamesWell(c) && IdsLeft(c) && Upsert(c, 7, name, "", 0) == c'
    ensures Leads(ListedAt(t, c), ListedAt(t, c'))
  {
    LeadsStep(ListedAt(t, c), Put(7, name, "", 0), ListedAt(t, c'));
  }

  lemma PruneStep(t: nat, c: Coll<Object>, c': Coll<Object>)
    requires NamesWell(c) && Prune(c, 1) == c'
    ensures Leads(ListedAt(t, c), ListedAt(t, c'))
  {
    LeadsStep(ListedAt(t, c), Pruned(1), ListedAt(t, c'));
  }

  lemma WrittenIsReached(t: nat)
    ensures Leads(Fresh(7), ListedAt(t, OneObject(t, t + 1)))
  {
    Gap(Fresh(7), t);
    ListingStep(t, Gapped(t));
    LeadsOn(Fresh(7), World(Gapped(t), 7, map[], None), ListedAt(t, Gapped(t)));
    FirstPut(t);
    PutStep(t, Gapped(t), "n", OneObject(t, t + 1));
    LeadsOn(Fresh(7), ListedAt(t, Gapped(t)), ListedAt(t, OneObject(t, t + 1)));
  }

  /** The client lists at token t; an object is written; failed writes take the change ids up to the floor;
      another object is written and all but the last change are pruned. */
  lemma OvertakenIsReached(t: nat, floor: nat)
    requires t < floor
    ensures Leads(Fresh(7), ListedAt(t, Overtaken(t, floor)))
  {
    var a, b := ListedAt(t, OneObject(t, t + 1)), ListedAt(t, OneObject(t, floor));
    var c, d := ListedAt(t, Overtaken(t, floor).(floor := 0)), ListedAt(t, Overtaken(t, floor));
    WrittenIsReached(t);
    Gap(a, floor - t - 1);
    LeadsOn(Fresh(7), a, b);
    SecondPut(t, floor);
    PutStep(t, b.objects, "m", c.objects);
    LeadsOn(Fresh(7), b, c);
    PruneOvertakes(t, floor);
    PruneStep(t, c.objects, d.objects);
    LeadsOn(Fresh(7), c, d);
  }

  /** In every reached state a whole report is enough for a client that holds token t at this floor. */
  ghost predicate SufficesWhenReached(t: nat, floor: nat)
  {
    forall parent, events, w |
      Reaches(Fresh(parent), events, w) && w.token == Some(t) && w.objects.floor == floor ::
      ReportSuffices(w.client, w.objects, w.parent, t)
  }

  /** Over the states the code reaches, too, the prune floor is the exact limit. */
  lemma ReachedSufficesIff(t: nat, floor: nat)
    ensures SufficesWhenReached(t, floor) <==> floor <= t
  {
    if floor <= t {
      forall parent, events, w |
        Reaches(Fresh(parent), events, w) && w.token == Some(t) && w.objects.floor == floor
        ensures ReportSuffices(w.client, w.objects, w.parent, t)
      {
        FreshIsHealthy(parent);
        RunKeeps(Fresh(parent), events, w);
        FullPageIsInSync(w.client, w.objects, w.parent, t, None);
      }
    } else {
      OvertakenIsReached(t, floor);
      var events :| Reaches(Fresh(7), events, ListedAt(t, Overtaken(t, floor)));
      OvertakenMisses(t, floor);
    }
  }

  // ----- Replaying changes on the records themselves -----

  /** Apply changes in order, taking what is not a deletion from the present records. */
  function Replay(rows: map<nat, Object>, changes: seq<Entry>, now: map<nat, Object>): map<nat, Object>
  {
    if changes == [] then rows else
      var n := |changes| - 1;
      var r := Replay(rows, changes[..n], now);
      var id := changes[n].document;
      if changes[n].kind == Delete then r - {id} else if id in now then r[id := now[id]] else r
  }

  /** Documents without an entry after change t are as they were. */
  ghost predicate UnmentionedSame(before: map<nat, Object>, c: Coll<Object>, t: nat)
  {
    && t <= c.lastChange
    && forall id | LastOf(c.log, id).None? || LastOf(c.log, id).value.changeId <= t ::
         (id in before <==> id in c.rows) && (id in before ==> id in c.rows && before[id] == c.rows[id])
  }

  lemma EditKeepsOthers(before: map<nat, Object>, c: Coll<Object>, c': Coll<Object>, e: Entry, t: nat)
    requires UnmentionedSame(before, c, t) && Edited(c, c', e)
    ensures UnmentionedSame(before, c', t)
  {
    forall id | LastOf(c'.log, id).None? || LastOf(c'.log, id).value.changeId <= t
      ensures (id in before <==> id in c'.rows) && (id in before ==> id in c'.rows && before[id] == c'.rows[id])
    {
      assert id != e.document;
    }
  }

  lemma StepKeepsOthers(before: map<nat, Object>, w: World, event: Event, t: nat)
    requires CollInv(w.objects) && Fair(w, event) && UnmentionedSame(before, w.objects, t)
    ensures UnmentionedSame(before, Step(w, event).objects, t)
  {
    var c := w.objects;
    match event
    case Put(parent, name, body, now) =>
      var e := UpsertEdits(c, parent, name, body, now);
      EditKeepsOthers(before, c, Upsert(c, parent, name, body, now), e, t);
    case Remove(parent, name) =>
      var id := RemoveIsDrop(w, parent, name);
      if id in c.rows {
        DropEdits(c, id);
        EditKeepsOthers(before, c, Step(w, Drop(id)).objects, Entry(c.lastChange + 1, id, Delete), t);
      }
    case Drop(id) =>
      if id in c.rows {
        DropEdits(c, id);
        EditKeepsOthers(before, c, Step(w, Drop(id)).objects, Entry(c.lastChange + 1, id, Delete), t);
      }
    case _ =>
  }

  lemma StepKeepsInv(w: World, event: Event)
    requires CollInv(w.objects) && Fair(w, event)
    ensures CollInv(Step(w, event).objects)
  {
    match event
    case Put(parent, name, body, now) => UpsertKeeps(w.objects, parent, name, body, now);
    case Remove(parent, name) => DeleteByNameKeeps(w.objects, parent, name);
    case Drop(id) => if id in w.objects.rows { DropKeeps(w.objects, id); }
    case Failed(drewId, drewChange) => LostKeeps(w.objects, drewId, drewChange);
    case Pruned(keep) => PruneKeeps(w.objects, keep);
    case _ =>
  }

  lemma {:induction false} RunKeepsOthers(before: map<nat, Object>, w: World, events: seq<Event>, w': World, t: nat)
    requires CollInv(w.objects) && Reaches(w, events, w') && UnmentionedSame(before, w.objects, t)
    ensures CollInv(w'.objects) && UnmentionedSame(before, w'.objects, t)
    decreases |events|
  {
    if events != [] {
      StepKeepsInv(w, events[0]);
      StepKeepsOthers(before, w, events[0], t);
      RunKeepsOthers(before, Step(w, events[0]), events[1..], w', t);
    }
  }

  /** After a replay, a document is as its last change left it, or as it was. */
  lemma {:induction false} ReplayAt(rows: map<nat, Object>, changes: seq<Entry>, now: map<nat, Object>, id: nat)
    requires LastOf(changes, id).Some? && LastOf(changes, id).value.kind != Delete ==> id in now
    ensures var r, last := Replay(rows, changes, now), LastOf(changes, id);
            if last.None? then (id in r <==> id in rows) && (id in r ==> r[id] == rows[id])
            else if last.value.kind == Delete then id !in r
            else id in r && r[id] == now[id]
  {
    if changes != [] {
      var n := |changes| - 1;
      if changes[n].document != id { ReplayAt(rows, changes[..n], now, id); }
    }
  }

  /** The last change a window shows for a document tells whether it lives. */
  lemma ChangesTell(c: Coll<Object>, t: nat, id: nat)
    requires CollInv(c) && c.floor <= t
    ensures var last := LastOf(ChangesSince(c, t), id);
            && last == (if LastOf(c.log, id).Some? && LastOf(c.log, id).value.changeId > t
                        then LastOf(c.log, id) else None)
            && (last.Some? ==> (id in c.rows <==> last.value.kind != Delete))
  {
    LastOfSince(c.log, t, id);
    if LastOf(c.log, id).Some? {
      LastOfIn(c.log, id);
      LastEntryFacts(c, id);
    }
  }

  lemma ReplayLater(before: map<nat, Object>, c: Coll<Object>, t: nat)
    requires CollInv(c) && c.floor <= t && UnmentionedSame(before, c, t)
    ensures Replay(before, ChangesSince(c, t), c.rows) == c.rows
  {
    var r := Replay(before, ChangesSince(c, t), c.rows);
    forall id ensures (id in r <==> id in c.rows) && (id in r ==> r[id] == c.rows[id]) {
      ChangesTell(c, t, id);
      ReplayAt(before, ChangesSince(c, t), c.rows, id);
    }
  }

  /** Documents the changes do not mention are the same; those they mention live unless last deleted. */
  ghost predicate ChangesExact(before: map<nat, Object>, changes: seq<Entry>, now: map<nat, Object>)
  {
    && (forall id | LastOf(changes, id).None? ::
          (id in before <==> id in now) && (id in before ==> id in now && before[id] == now[id]))
    && (forall id | LastOf(changes, id).Some? :: id in now <==> LastOf(changes, id).value.kind != Delete)
  }

  lemma ChangesAreExact(before: map<nat, Object>, c: Coll<Object>, t: nat)
    requires CollInv(c) && c.floor <= t && UnmentionedSame(before, c, t)
    ensures ChangesExact(before, ChangesSince(c, t), c.rows)
  {
    var changes := ChangesSince(c, t);
    forall id
      ensures LastOf(changes, id) ==
              if LastOf(c.log, id).Some? && LastOf(c.log, id).value.changeId > t then LastOf(c.log, id) else None
      ensures LastOf(changes, id).Some? ==> (id in c.rows <==> LastOf(changes, id).value.kind != Delete)
    {
      ChangesTell(c, t, id);
    }
  }

  /** Take any state of a run and any later state. Replaying what changes_since gives on the records of
      the first yields the records of the second, and a document it does not mention has not changed. */
  lemma ReplayGivesLive(w: World, events: seq<Event>, w': World)
    requires CollInv(w.objects) && Reaches(w, events, w') && w'.objects.floor <= w.objects.lastChange
    ensures var changes := ChangesSince(w'.objects, w.objects.lastChange);
            && Replay(w.objects.rows, changes, w'.objects.rows) == w'.objects.rows
            && ChangesExact(w.objects.rows, changes, w'.objects.rows)
  {
    var before, t := w.objects.rows, w.objects.lastChange;
    NothingYet(w.objects);
    RunKeepsOthers(before, w, events, w', t);
    ReplayLater(before, w'.objects, t);
    ChangesAreExact(before, w'.objects, t);
  }

  lemma NothingYet(c: Coll<Object>)
    ensures UnmentionedSame(c.rows, c, c.lastChange)
  {
  }
}
