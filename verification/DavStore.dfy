/** The calendar and contact store: collections of records with tombstones, an id counter and a
    change log, and the operations on one family (calendars with events, or address books with
    cards). Operations are functions here; DavObjects runs them on objects in place. */
module DavStore {
  import opened Common
  import opened Bytes

  datatype Kind = Insert | Update | Delete

  datatype Entry = Entry(changeId: nat, document: nat, kind: Kind)

  datatype Tombstone = Tombstone(changeId: nat, parent: nat, name: string)

  /** One collection of one account. `log` is the whole history of changes; those up to `floor` have
      been pruned from the store and are out of reach. */
  datatype Coll<T> = Coll(
    rows: map<nat, T>, tombs: map<nat, Tombstone>, lastId: nat, lastChange: nat, log: seq<Entry>, floor: nat)

  function EmptyColl<T>(): Coll<T>
  {
    Coll(map[], map[], 0, 0, [], 0)
  }

  /** The counter is 64 bits wide, the id 32. */
  function Allocated<T>(c: Coll<T>): (Coll<T>, nat)
  {
    (c.(lastId := c.lastId + 1), (c.lastId + 1) % TWO_32)
  }

  function WriteRecord<T>(c: Coll<T>, id: nat, row: T, kind: Kind): Coll<T>
  {
    c.(rows := c.rows[id := row],
       lastChange := c.lastChange + 1,
       log := c.log + [Entry(c.lastChange + 1, id, kind)])
  }

  function DeleteRecord<T>(c: Coll<T>, id: nat, parent: nat, name: string): Coll<T>
  {
    c.(rows := c.rows - {id},
       tombs := c.tombs[id := Tombstone(c.lastChange + 1, parent, name)],
       lastChange := c.lastChange + 1,
       log := c.log + [Entry(c.lastChange + 1, id, Delete)])
  }

  /** A write that fails leaves at most a gap in the record ids and one in the change ids. */
  function Lost<T>(c: Coll<T>, drewId: bool, drewChange: bool): Coll<T>
  {
    c.(lastId := if drewId then c.lastId + 1 else c.lastId,
       lastChange := if drewChange then c.lastChange + 1 else c.lastChange)
  }

  /** Pruning keeps the last `keep` ids and records how far it went. */
  function Prune<T>(c: Coll<T>, keep: nat): Coll<T>
  {
    var kept := if keep == 0 then 1 else keep;
    var cutoff := if c.lastChange > kept then c.lastChange - kept else 0;
    if exists e | e in c.log :: c.floor < e.changeId <= cutoff then c.(floor := cutoff) else c
  }

  /** Pruning never reaches an entry among the last `keep` change ids, one at least; it reaches every entry before
      them; and it moves only when there is one to reach. Records, tombstones and counters stay. */
  lemma PruneExact<T>(c: Coll<T>, keep: nat, e: Entry)
    requires c.floor <= c.lastChange && e in c.log && 1 <= e.changeId
    ensures var c' := Prune(c, keep);
            && c' == c.(floor := c'.floor) && c.floor <= c'.floor
            && (e.changeId > c.floor && (e.changeId + keep > c.lastChange || e.changeId == c.lastChange) ==>
                  e.changeId > c'.floor)
            && (e.changeId + keep <= c.lastChange && e.changeId < c.lastChange ==> e.changeId <= c'.floor)
            && (c'.floor > c.floor ==> exists x | x in c.log :: c.floor < x.changeId <= c'.floor)
  {
  }

  // ----- Reading a log -----

  function LastOf(log: seq<Entry>, id: nat): Option<Entry>
  {
    if log == [] then None
    else if log[|log| - 1].document == id then Some(log[|log| - 1])
    else LastOf(log[..|log| - 1], id)
  }

  function FirstOf(log: seq<Entry>, id: nat): Option<Entry>
  {
    if log == [] then None else
      var r := FirstOf(log[..|log| - 1], id);
      if r.Some? then r else if log[|log| - 1].document == id then Some(log[|log| - 1]) else None
  }

  predicate Ascends(log: seq<Entry>)
  {
    forall i, j | 0 <= i < j < |log| :: log[i].changeId < log[j].changeId
  }

  lemma LastOfSnoc(log: seq<Entry>, e: Entry, id: nat)
    ensures LastOf(log + [e], id) == if e.document == id then Some(e) else LastOf(log, id)
    ensures FirstOf(log + [e], id) ==
            if FirstOf(log, id).Some? then FirstOf(log, id) else if e.document == id then Some(e) else None
  {
    assert (log + [e])[..|log|] == log;
  }

  /** Every entry of a document lies between its first and its last. */
  lemma {:induction false} EntryBetween(log: seq<Entry>, e: Entry)
    requires Ascends(log) && e in log
    ensures FirstOf(log, e.document).Some? && LastOf(log, e.document).Some?
    ensures FirstOf(log, e.document).value.changeId <= e.changeId <= LastOf(log, e.document).value.changeId
  {
    var n := |log| - 1;
    assert log == log[..n] + [log[n]];
    LastOfSnoc(log[..n], log[n], e.document);
    if e in log[..n] {
      EntryBetween(log[..n], e);
      LastOfIn(log[..n], e.document);
    } else if FirstOf(log[..n], e.document).Some? {
      FirstOfIn(log[..n], e.document);
    }
  }

  lemma {:induction false} LastOfIn(log: seq<Entry>, id: nat)
    requires LastOf(log, id).Some?
    ensures LastOf(log, id).value in log && LastOf(log, id).value.document == id
  {
    if log[|log| - 1].document != id { LastOfIn(log[..|log| - 1], id); }
  }

  lemma {:induction false} FirstOfIn(log: seq<Entry>, id: nat)
    requires FirstOf(log, id).Some?
    ensures FirstOf(log, id).value in log && FirstOf(log, id).value.document == id
  {
    if FirstOf(log[..|log| - 1], id).Some? { FirstOfIn(log[..|log| - 1], id); }
  }

  // ----- One family -----

  datatype Parent = Parent(id: nat, name: string, displayName: string, created: nat, modified: nat)

  /** An event or a card; etag, uid, time range and the like are derived from the body. */
  datatype Object = Object(id: nat, parent: nat, name: string, body: string, created: nat, modified: nat)

  datatype Family = Family(parents: Coll<Parent>, objects: Coll<Object>)

  predicate Named(o: Object, parent: nat, name: string)
  {
    o.parent == parent && o.name == name
  }

  predicate IsFirstNamed(c: Coll<Object>, parent: nat, name: string, id: nat)
  {
    && id in c.rows && Named(c.rows[id], parent, name)
    && forall other | other in c.rows && Named(c.rows[other], parent, name) :: id <= other
  }

  /** The object a name leads to: the one of least id. */
  ghost function ByName(c: Coll<Object>, parent: nat, name: string): (r: Option<Object>)
    ensures r.None? <==> forall id | id in c.rows :: !Named(c.rows[id], parent, name)
    ensures r.Some? ==> exists id :: IsFirstNamed(c, parent, name, id) && r.value == c.rows[id]
  {
    if exists id | id in c.rows :: Named(c.rows[id], parent, name) then
      FirstNamedExists(c, parent, name);
      var id :| IsFirstNamed(c, parent, name, id);
      Some(c.rows[id])
    else None
  }

  lemma FirstNamedExists(c: Coll<Object>, parent: nat, name: string)
    requires exists id | id in c.rows :: Named(c.rows[id], parent, name)
    ensures exists id :: IsFirstNamed(c, parent, name, id)
  {
    var id :| id in c.rows && Named(c.rows[id], parent, name);
    DescendToFirst(c, parent, name, id);
  }

  lemma {:induction false} DescendToFirst(c: Coll<Object>, parent: nat, name: string, id: nat)
    requires id in c.rows && Named(c.rows[id], parent, name)
    ensures exists id' :: IsFirstNamed(c, parent, name, id')
  {
    if !IsFirstNamed(c, parent, name, id) {
      var other :| other in c.rows && Named(c.rows[other], parent, name) && other < id;
      DescendToFirst(c, parent, name, other);
    }
  }

  ghost function Upsert(c: Coll<Object>, parent: nat, name: string, body: string, now: nat): Coll<Object>
  {
    var existing := ByName(c, parent, name);
    if existing.Some? then
      var o := existing.value;
      WriteRecord(c, o.id, o.(body := body, modified := now), Update)
    else
      var (c', id) := Allocated(c);
      WriteRecord(c', id, Object(id, parent, name, body, now, now), Insert)
  }

  ghost function DeleteByName(c: Coll<Object>, parent: nat, name: string): Coll<Object>
  {
    var existing := ByName(c, parent, name);
    if existing.Some? then DeleteRecord(c, existing.value.id, parent, name) else c
  }

  // ----- The invariant of a collection -----

  predicate LogWell<T>(c: Coll<T>)
  {
    && Ascends(c.log)
    && (forall e | e in c.log :: 1 <= e.changeId <= c.lastChange && (e.document in c.rows || e.document in c.tombs))
    && c.floor <= c.lastChange
  }

  /** Every id, live or dead, was inserted once, first; a dead one was deleted once, last. */
  ghost predicate LivesWell<T>(c: Coll<T>)
  {
    && (forall id | id in c.rows :: LastOf(c.log, id).Some? && LastOf(c.log, id).value.kind != Delete)
    && (forall id | id in c.tombs :: LastOf(c.log, id) == Some(Entry(c.tombs[id].changeId, id, Delete)))
    && (forall e | e in c.log && e.kind == Insert :: FirstOf(c.log, e.document) == Some(e))
    && (forall e | e in c.log && e.kind == Delete :: LastOf(c.log, e.document) == Some(e))
    && (forall id | FirstOf(c.log, id).Some? :: FirstOf(c.log, id).value.kind == Insert)
  }

  /** Ids in use are the ones handed out, and none is both live and tombstoned. */
  predicate IdsWell<T>(c: Coll<T>)
  {
    && c.lastId < TWO_32
    && (forall id | id in c.rows :: 1 <= id <= c.lastId && id !in c.tombs)
    && (forall id | id in c.tombs :: 1 <= id <= c.lastId)
  }

  /** No two live objects share a name within a parent, and whoever bore the name before died before
      its present bearer was born. */
  predicate NamesWell(c: Coll<Object>)
  {
    && (forall id | id in c.rows :: c.rows[id].id == id)
    && (forall i, j | i in c.rows && j in c.rows && i != j :: !Named(c.rows[i], c.rows[j].parent, c.rows[j].name))
    && (forall i, j | i in c.rows && j in c.tombs && Named(c.rows[i], c.tombs[j].parent, c.tombs[j].name) ::
          Born(c, i) > c.tombs[j].changeId)
  }

  function Born<T>(c: Coll<T>, id: nat): nat
  {
    var f := FirstOf(c.log, id);
    if f.Some? then f.value.changeId else 0
  }

  ghost predicate CollInv(c: Coll<Object>)
  {
    LogWell(c) && LivesWell(c) && IdsWell(c) && NamesWell(c)
  }

  lemma ByNameUnique(c: Coll<Object>, parent: nat, name: string, id: nat)
    requires NamesWell(c) && id in c.rows && Named(c.rows[id], parent, name)
    ensures ByName(c, parent, name) == Some(c.rows[id])
  {
    var o := ByName(c, parent, name).value;
    var id' :| IsFirstNamed(c, parent, name, id') && o == c.rows[id'];
    assert Named(c.rows[id'], c.rows[id].parent, c.rows[id].name);
  }

  // ----- Every operation keeps it -----

  /** What reading a log gives after one more entry. */
  ghost predicate Grown(log: seq<Entry>, log': seq<Entry>, e: Entry)
  {
    && (forall d :: d in log' <==> d in log || d == e)
    && (forall x :: LastOf(log', x) == if x == e.document then Some(e) else LastOf(log, x))
    && (forall x :: FirstOf(log', x) ==
          if FirstOf(log, x).Some? then FirstOf(log, x) else if x == e.document then Some(e) else None)
  }

  lemma SnocGrows(log: seq<Entry>, e: Entry)
    ensures Grown(log, log + [e], e)
  {
    forall x ensures LastOf(log + [e], x) == (if x == e.document then Some(e) else LastOf(log, x))
      ensures FirstOf(log + [e], x) ==
              if FirstOf(log, x).Some? then FirstOf(log, x) else if x == e.document then Some(e) else None
    {
      LastOfSnoc(log, e, x);
    }
  }

  lemma SnocLogWell<T>(c: Coll<T>, c': Coll<T>, e: Entry)
    requires LogWell(c) && e.changeId == c.lastChange + 1 && c'.lastChange == c.lastChange + 1
    requires c'.log == c.log + [e] && c'.floor == c.floor
    requires c'.rows.Keys + c'.tombs.Keys == c.rows.Keys + c.tombs.Keys + {e.document}
    ensures LogWell(c')
  {
    forall d | d in c'.log ensures d.document in c'.rows || d.document in c'.tombs {
      assert d.document in c.rows.Keys + c.tombs.Keys + {e.document};
    }
  }

  lemma NoEntries<T>(c: Coll<T>, id: nat)
    requires LogWell(c) && id !in c.rows && id !in c.tombs
    ensures FirstOf(c.log, id).None? && LastOf(c.log, id).None?
  {
    if FirstOf(c.log, id).Some? { FirstOfIn(c.log, id); }
    if LastOf(c.log, id).Some? { LastOfIn(c.log, id); }
  }

  /** A live id has a first entry. */
  lemma LiveHasFirst<T>(c: Coll<T>, id: nat)
    requires LogWell(c) && LivesWell(c) && id in c.rows
    ensures FirstOf(c.log, id).Some? && 1 <= Born(c, id) <= LastOf(c.log, id).value.changeId <= c.lastChange
  {
    LastOfIn(c.log, id);
    EntryBetween(c.log, LastOf(c.log, id).value);
    FirstOfIn(c.log, id);
  }

  lemma LivesStep<T>(c: Coll<T>, c': Coll<T>, e: Entry)
    requires LivesWell(c) && Grown(c.log, c'.log, e)
    requires e.kind == Insert <==> FirstOf(c.log, e.document).None?
    requires LastOf(c.log, e.document).Some? ==> LastOf(c.log, e.document).value.kind != Delete
    requires forall id | id in c'.rows :: if id == e.document then e.kind != Delete else id in c.rows
    requires forall id | id in c'.tombs ::
               if id == e.document then e.kind == Delete && c'.tombs[id].changeId == e.changeId
               else id in c.tombs && c'.tombs[id] == c.tombs[id]
    ensures LivesWell(c')
  {
    forall d | d in c'.log && d.kind == Delete ensures LastOf(c'.log, d.document) == Some(d) {
      if d != e {
        assert d in c.log;
        assert d.document != e.document;
      }
    }
  }

  lemma UpdateLogWell<T>(c: Coll<T>, id: nat, row: T)
    requires LogWell(c) && id in c.rows
    ensures LogWell(WriteRecord(c, id, row, Update))
  {
    var c' := WriteRecord(c, id, row, Update);
    assert c'.rows.Keys == c.rows.Keys + {id};
    SnocLogWell(c, c', Entry(c.lastChange + 1, id, Update));
  }

  lemma UpdateLives<T>(c: Coll<T>, id: nat, row: T)
    requires LivesWell(c) && id in c.rows && id !in c.tombs && FirstOf(c.log, id).Some?
    ensures LivesWell(WriteRecord(c, id, row, Update))
  {
    var e := Entry(c.lastChange + 1, id, Update);
    SnocGrows(c.log, e);
    LivesStep(c, WriteRecord(c, id, row, Update), e);
  }

  lemma InsertLogWell<T>(c: Coll<T>, id: nat, row: T)
    requires LogWell(c)
    ensures LogWell(WriteRecord(c, id, row, Insert))
  {
    var c' := WriteRecord(c, id, row, Insert);
    assert c'.rows.Keys == c.rows.Keys + {id};
    SnocLogWell(c, c', Entry(c.lastChange + 1, id, Insert));
  }

  lemma InsertLives<T>(c: Coll<T>, id: nat, row: T)
    requires LivesWell(c) && id !in c.rows && id !in c.tombs
    requires FirstOf(c.log, id).None? && LastOf(c.log, id).None?
    ensures LivesWell(WriteRecord(c, id, row, Insert))
  {
    var e := Entry(c.lastChange + 1, id, Insert);
    SnocGrows(c.log, e);
    LivesStep(c, WriteRecord(c, id, row, Insert), e);
  }

  lemma DeleteLogWell<T>(c: Coll<T>, id: nat, parent: nat, name: string)
    requires LogWell(c) && id in c.rows
    ensures LogWell(DeleteRecord(c, id, parent, name))
  {
    var c' := DeleteRecord(c, id, parent, name);
    assert c'.rows.Keys + c'.tombs.Keys == c.rows.Keys + c.tombs.Keys + {id};
    SnocLogWell(c, c', Entry(c.lastChange + 1, id, Delete));
  }

  lemma DeleteLives<T>(c: Coll<T>, id: nat, parent: nat, name: string)
    requires LivesWell(c) && id in c.rows && id !in c.tombs && FirstOf(c.log, id).Some?
    ensures LivesWell(DeleteRecord(c, id, parent, name))
  {
    var e := Entry(c.lastChange + 1, id, Delete);
    SnocGrows(c.log, e);
    LivesStep(c, DeleteRecord(c, id, parent, name), e);
  }

  lemma BornAfter<T>(c: Coll<T>, c': Coll<T>, e: Entry, x: nat)
    requires c'.log == c.log + [e]
    ensures Born(c', x) == if FirstOf(c.log, x).None? && x == e.document then e.changeId else Born(c, x)
  {
    LastOfSnoc(c.log, e, x);
  }

  lemma UpdateNames(c: Coll<Object>, o: Object)
    requires NamesWell(c) && o.id in c.rows && FirstOf(c.log, o.id).Some?
    requires o.parent == c.rows[o.id].parent && o.name == c.rows[o.id].name
    ensures NamesWell(WriteRecord(c, o.id, o, Update))
  {
    var c' := WriteRecord(c, o.id, o, Update);
    forall x ensures Born(c', x) == Born(c, x) { BornAfter(c, c', Entry(c.lastChange + 1, o.id, Update), x); }
    forall i, j | i in c'.rows && j in c'.tombs && Named(c'.rows[i], c'.tombs[j].parent, c'.tombs[j].name)
      ensures Born(c', i) > c'.tombs[j].changeId
    {
      assert Named(c.rows[i], c.tombs[j].parent, c.tombs[j].name);
    }
    forall i, j | i in c'.rows && j in c'.rows && i != j
      ensures !Named(c'.rows[i], c'.rows[j].parent, c'.rows[j].name)
    {
      assert !Named(c.rows[i], c.rows[j].parent, c.rows[j].name);
    }
  }

  predicate TombsPast<T>(c: Coll<T>)
  {
    forall id | id in c.tombs :: c.tombs[id].changeId <= c.lastChange
  }

  lemma TombsArePast<T>(c: Coll<T>)
    requires LogWell(c) && LivesWell(c)
    ensures TombsPast(c)
  {
    forall id | id in c.tombs ensures c.tombs[id].changeId <= c.lastChange {
      LastOfIn(c.log, id);
    }
  }

  lemma InsertNames(c: Coll<Object>, o: Object)
    requires NamesWell(c) && TombsPast(c) && o.id !in c.rows && FirstOf(c.log, o.id).None?
    requires forall id | id in c.rows :: !Named(c.rows[id], o.parent, o.name)
    ensures NamesWell(WriteRecord(c, o.id, o, Insert))
  {
    var c' := WriteRecord(c, o.id, o, Insert);
    forall x ensures Born(c', x) == if x == o.id then c.lastChange + 1 else Born(c, x) {
      BornAfter(c, c', Entry(c.lastChange + 1, o.id, Insert), x);
    }
  }

  lemma DeleteNames(c: Coll<Object>, id: nat)
    requires NamesWell(c) && id in c.rows && FirstOf(c.log, id).Some?
    ensures NamesWell(DeleteRecord(c, id, c.rows[id].parent, c.rows[id].name))
  {
    var o := c.rows[id];
    var c' := DeleteRecord(c, id, o.parent, o.name);
    forall x ensures Born(c', x) == Born(c, x) { BornAfter(c, c', Entry(c.lastChange + 1, id, Delete), x); }
    forall i, j | i in c'.rows && j in c'.tombs && Named(c'.rows[i], c'.tombs[j].parent, c'.tombs[j].name)
      ensures Born(c', i) > c'.tombs[j].changeId
    {
      assert !Named(c.rows[i], o.parent, o.name);
    }
  }

  /** There is an id left to hand out. */
  predicate IdsLeft<T>(c: Coll<T>)
  {
    c.lastId + 1 < TWO_32
  }

  lemma RewriteKeeps(c: Coll<Object>, o: Object)
    requires CollInv(c) && o.id in c.rows && o.parent == c.rows[o.id].parent && o.name == c.rows[o.id].name
    ensures CollInv(WriteRecord(c, o.id, o, Update))
  {
    LiveHasFirst(c, o.id);
    UpdateLogWell(c, o.id, o);
    UpdateLives(c, o.id, o);
    UpdateNames(c, o);
  }

  lemma AllocateKeeps(c: Coll<Object>)
    requires CollInv(c) && IdsLeft(c)
    ensures CollInv(Allocated(c).0)
    ensures Allocated(c).1 == c.lastId + 1 && Allocated(c).1 !in c.rows && Allocated(c).1 !in c.tombs
  {
    var c' := Allocated(c).0;
    assert c'.log == c.log && c'.rows == c.rows && c'.tombs == c.tombs;
    forall id ensures Born(c', id) == Born(c, id) {}
  }

  lemma InsertKeeps(c: Coll<Object>, o: Object)
    requires CollInv(c) && o.id == c.lastId && 1 <= o.id && o.id !in c.rows && o.id !in c.tombs
    requires forall id | id in c.rows :: !Named(c.rows[id], o.parent, o.name)
    ensures CollInv(WriteRecord(c, o.id, o, Insert))
  {
    NoEntries(c, o.id);
    TombsArePast(c);
    InsertLogWell(c, o.id, o);
    InsertLives(c, o.id, o);
    InsertNames(c, o);
  }

  /** Upserting keeps names unique, ids single-use and the log faithful. */
  lemma UpsertKeeps(c: Coll<Object>, parent: nat, name: string, body: string, now: nat)
    requires CollInv(c) && IdsLeft(c)
    ensures CollInv(Upsert(c, parent, name, body, now))
  {
    var existing := ByName(c, parent, name);
    if existing.Some? {
      var id :| IsFirstNamed(c, parent, name, id) && existing.value == c.rows[id];
      RewriteKeeps(c, existing.value.(body := body, modified := now));
    } else {
      AllocateKeeps(c);
      var (c', id) := Allocated(c);
      InsertKeeps(c', Object(id, parent, name, body, now, now));
    }
  }

  lemma DropKeeps(c: Coll<Object>, id: nat)
    requires CollInv(c) && id in c.rows
    ensures CollInv(DeleteRecord(c, id, c.rows[id].parent, c.rows[id].name))
  {
    LiveHasFirst(c, id);
    DeleteLogWell(c, id, c.rows[id].parent, c.rows[id].name);
    DeleteLives(c, id, c.rows[id].parent, c.rows[id].name);
    DeleteNames(c, id);
  }

  lemma DeleteByNameKeeps(c: Coll<Object>, parent: nat, name: string)
    requires CollInv(c)
    ensures CollInv(DeleteByName(c, parent, name))
  {
    var existing := ByName(c, parent, name);
    if existing.Some? {
      var id :| IsFirstNamed(c, parent, name, id) && existing.value == c.rows[id];
      DropKeeps(c, id);
    }
  }

  lemma SameRecords(c: Coll<Object>, c': Coll<Object>)
    requires CollInv(c) && c'.rows == c.rows && c'.tombs == c.tombs && c'.log == c.log
    requires c.lastId <= c'.lastId < TWO_32 && c.lastChange <= c'.lastChange && c'.floor <= c'.lastChange
    ensures CollInv(c')
  {
    forall id ensures Born(c', id) == Born(c, id) {}
  }

  lemma LostKeeps(c: Coll<Object>, drewId: bool, drewChange: bool)
    requires CollInv(c) && (drewId ==> IdsLeft(c))
    ensures CollInv(Lost(c, drewId, drewChange))
  {
    SameRecords(c, Lost(c, drewId, drewChange));
  }

  lemma PruneKeeps(c: Coll<Object>, keep: nat)
    requires CollInv(c)
    ensures CollInv(Prune(c, keep))
  {
    SameRecords(c, Prune(c, keep));
  }

  // ----- Deleting a parent -----

  /** No live object belongs to a parent that is gone. */
  predicate NoOrphans(f: Family)
  {
    forall id | id in f.objects.rows :: f.objects.rows[id].parent in f.parents.rows
  }

  /** Exactly the objects of a parent, by ascending id. */
  predicate Children(f: Family, parent: nat, ids: seq<nat>)
  {
    && (forall i | 0 <= i < |ids| :: ids[i] in f.objects.rows && f.objects.rows[ids[i]].parent == parent)
    && (forall i, j | 0 <= i < j < |ids| :: ids[i] < ids[j])
    && (forall id | id in f.objects.rows && f.objects.rows[id].parent == parent :: id in ids)
  }

  /** The states after each batch of delete_calendar: one per child, in the listed order, then the parent. */
  function DropChildren(f: Family, ids: seq<nat>): (g: Family)
    requires forall i | 0 <= i < |ids| :: ids[i] in f.objects.rows
    ensures g.parents == f.parents
  {
    if ids == [] then f else
      var n := |ids| - 1;
      var g := DropChildren(f, ids[..n]);
      var o := f.objects.rows[ids[n]];
      g.(objects := DeleteRecord(g.objects, ids[n], o.parent, o.name))
  }

  function DropParent(f: Family, parent: nat): Family
    requires parent in f.parents.rows
  {
    f.(parents := DeleteRecord(f.parents, parent, 0, f.parents.rows[parent].name))
  }

  predicate Buried(c: Coll<Object>, o: Object, id: nat)
  {
    id in c.tombs && c.tombs[id].parent == o.parent && c.tombs[id].name == o.name
  }

  lemma {:induction false} DropChildrenRows(f: Family, ids: seq<nat>)
    requires forall i | 0 <= i < |ids| :: ids[i] in f.objects.rows
    ensures forall id :: id in DropChildren(f, ids).objects.rows <==> id in f.objects.rows && id !in ids
    ensures forall id | id in DropChildren(f, ids).objects.rows ::
              DropChildren(f, ids).objects.rows[id] == f.objects.rows[id]
  {
    if ids != [] {
      var n := |ids| - 1;
      DropChildrenRows(f, ids[..n]);
      assert ids == ids[..n] + [ids[n]];
    }
  }

  lemma {:induction false} DropChildrenBuries(f: Family, ids: seq<nat>)
    requires forall i | 0 <= i < |ids| :: ids[i] in f.objects.rows
    ensures forall i | 0 <= i < |ids| :: Buried(DropChildren(f, ids).objects, f.objects.rows[ids[i]], ids[i])
  {
    if ids != [] {
      var n := |ids| - 1;
      DropChildrenBuries(f, ids[..n]);
      forall i | 0 <= i < n ensures Buried(DropChildren(f, ids).objects, f.objects.rows[ids[i]], ids[i]) {
        assert Buried(DropChildren(f, ids[..n]).objects, f.objects.rows[ids[..n][i]], ids[..n][i]);
      }
    }
  }

  lemma {:induction false} DropChildrenKeeps(f: Family, ids: seq<nat>)
    requires CollInv(f.objects)
    requires forall i | 0 <= i < |ids| :: ids[i] in f.objects.rows
    requires forall i, j | 0 <= i < j < |ids| :: ids[i] != ids[j]
    ensures CollInv(DropChildren(f, ids).objects)
  {
    if ids != [] {
      var n := |ids| - 1;
      DropChildrenKeeps(f, ids[..n]);
      DropChildrenRows(f, ids[..n]);
      DropKeeps(DropChildren(f, ids[..n]).objects, ids[n]);
    }
  }

  /** Writing under a name orphans nothing exactly when the parent named is alive. */
  lemma UpsertOrphansIff(f: Family, parent: nat, name: string, body: string, now: nat)
    requires NoOrphans(f)
    ensures NoOrphans(f.(objects := Upsert(f.objects, parent, name, body, now))) <==> parent in f.parents.rows
  {
    var c := Upsert(f.objects, parent, name, body, now);
    var existing := ByName(f.objects, parent, name);
    var id := if existing.Some? then existing.value.id else Allocated(f.objects).1;
    assert id in c.rows && c.rows[id].parent == parent;
    forall other | other in c.rows && other != id
      ensures other in f.objects.rows && c.rows[other] == f.objects.rows[other] {}
  }

  lemma DeleteOrphansNothing(f: Family, parent: nat, name: string)
    requires NoOrphans(f)
    ensures NoOrphans(f.(objects := DeleteByName(f.objects, parent, name)))
  {
    var c := DeleteByName(f.objects, parent, name);
    forall id | id in c.rows ensures id in f.objects.rows && c.rows[id] == f.objects.rows[id] {}
  }

  /** Whatever prefix of the batches has been applied, no live object has lost its parent. */
  lemma DeleteParentPrefixes(f: Family, parent: nat, ids: seq<nat>, k: nat)
    requires CollInv(f.objects) && NoOrphans(f) && Children(f, parent, ids) && k <= |ids|
    ensures NoOrphans(DropChildren(f, ids[..k])) && CollInv(DropChildren(f, ids[..k]).objects)
  {
    DropChildrenRows(f, ids[..k]);
    DropChildrenKeeps(f, ids[..k]);
  }

  /** After the last batch the parent and exactly its children are gone, each child with a tombstone. */
  lemma DeleteParentExact(f: Family, parent: nat, ids: seq<nat>)
    requires parent in f.parents.rows && Children(f, parent, ids)
    ensures var g := DropParent(DropChildren(f, ids), parent);
            && g.parents.rows == f.parents.rows - {parent}
            && (forall id :: id in g.objects.rows <==> id in f.objects.rows && f.objects.rows[id].parent != parent)
            && (forall id | id in g.objects.rows :: g.objects.rows[id] == f.objects.rows[id])
            && (forall id | id in f.objects.rows && f.objects.rows[id].parent == parent ::
                  Buried(g.objects, f.objects.rows[id], id))
            && (NoOrphans(f) ==> NoOrphans(g))
            && g.parents.tombs == f.parents.tombs[
                 parent := Tombstone(f.parents.lastChange + 1, 0, f.parents.rows[parent].name)]
            && g.parents.log == f.parents.log + [Entry(f.parents.lastChange + 1, parent, Delete)]
  {
    DropChildrenRows(f, ids);
    DropChildrenBuries(f, ids);
    forall id | id in f.objects.rows && f.objects.rows[id].parent == parent
      ensures Buried(DropChildren(f, ids).objects, f.objects.rows[id], id)
    {
      var i :| 0 <= i < |ids| && ids[i] == id;
    }
  }
}
