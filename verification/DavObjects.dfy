/** The calendar and contact store as objects updated in place, and the synchronization report computed
    step by step; each method is proved to do what DavStore and DavSync say. */
module DavObjects {
  import opened Common
  import opened DavStore
  import opened DavSync

  // ----- Scans in ascending id order -----

  predicate Rising(ids: seq<nat>)
  {
    forall i, j | 0 <= i < j < |ids| :: ids[i] < ids[j]
  }

  method Ascending(ids: set<nat>) returns (r: seq<nat>)
    ensures Rising(r) && forall id :: id in r <==> id in ids
  {
    r := [];
    var left := ids;
    while left != {}
      invariant Rising(r) && left <= ids
      invariant forall id :: id in r <==> id in ids && id !in left
      invariant forall a, b | a in r && b in left :: a < b
      decreases |left|
    {
      var least := LeastOf(left);
      forall i | 0 <= i < |r| ensures r[i] < least { assert r[i] in r; }
      r := r + [least];
      left := left - {least};
    }
  }

  method LeastOf(ids: set<nat>) returns (least: nat)
    requires ids != {}
    ensures least in ids && forall id | id in ids :: least <= id
  {
    least :| least in ids;
    var left := ids - {least};
    while left != {}
      invariant least in ids && left <= ids
      invariant forall id | id in ids && id !in left :: least <= id
      decreases |left|
    {
      var id :| id in left;
      if id < least { least := id; }
      left := left - {id};
    }
  }

  // ----- One collection -----

  /** A log in two parts: what was pruned, up to the floor, and what is stored, above it. */
  predicate Parted(pruned: seq<Entry>, log: seq<Entry>, floor: nat, lastChange: nat)
  {
    && Ascends(pruned + log) && floor <= lastChange
    && (forall i | 0 <= i < |pruned| :: pruned[i].changeId <= floor)
    && (forall i | 0 <= i < |log| :: floor < log[i].changeId <= lastChange)
  }

  /** The stored part alone answers for the whole. */
  lemma {:induction false} StoredSince(pruned: seq<Entry>, log: seq<Entry>, floor: nat, t: nat)
    requires forall i | 0 <= i < |pruned| :: pruned[i].changeId <= floor
    requires forall i | 0 <= i < |log| :: floor < log[i].changeId
    ensures Since(log, t) == Since(pruned + log, if t < floor then floor else t)
  {
    var whole := pruned + log;
    if log != [] {
      var n := |log| - 1;
      StoredSince(pruned, log[..n], floor, t);
      assert whole[..|whole| - 1] == pruned + log[..n];
    } else if pruned != [] {
      var n := |pruned| - 1;
      StoredSince(pruned[..n], [], floor, t);
      assert whole[..|whole| - 1] == pruned[..n] + [];
    }
  }

  /** A record collection with its tombstones, counters and the entries pruning has left. */
  class Collection<T> {
    var rows: map<nat, T>
    var tombs: map<nat, Tombstone>
    var lastId: nat
    var lastChange: nat
    var log: seq<Entry>
    var floor: nat
    ghost var pruned: seq<Entry>

    ghost predicate Valid()
      reads this
    {
      Parted(pruned, log, floor, lastChange)
    }

    ghost function Value(): Coll<T>
      reads this
    {
      Coll(rows, tombs, lastId, lastChange, pruned + log, floor)
    }

    constructor ()
      ensures Valid() && Value() == EmptyColl()
    {
      rows, tombs, lastId, lastChange, log, floor, pruned := map[], map[], 0, 0, [], 0, [];
    }

    method AllocateId() returns (id: nat)
      requires Valid()
      modifies this
      ensures Valid() && (Value(), id) == Allocated(old(Value()))
    {
      lastId := lastId + 1;
      id := lastId % Bytes.TWO_32;
    }

    method Record(id: nat, kind: Kind) returns (changeId: nat)
      requires Valid()
      modifies `lastChange, `log
      ensures Valid() && changeId == lastChange == old(lastChange) + 1
      ensures log == old(log) + [Entry(changeId, id, kind)]
    {
      lastChange := lastChange + 1;
      changeId := lastChange;
      assert pruned + (log + [Entry(changeId, id, kind)]) == pruned + log + [Entry(changeId, id, kind)];
      log := log + [Entry(changeId, id, kind)];
    }

    method WriteRecord(id: nat, row: T, kind: Kind)
      requires Valid()
      modifies this
      ensures Valid() && Value() == DavStore.WriteRecord(old(Value()), id, row, kind)
    {
      var changeId := Record(id, kind);
      rows := rows[id := row];
      assert pruned + log == old(pruned + log) + [Entry(changeId, id, kind)];
    }

    method DeleteRecord(id: nat, parent: nat, name: string)
      requires Valid()
      modifies this
      ensures Valid() && Value() == DavStore.DeleteRecord(old(Value()), id, parent, name)
    {
      var changeId := Record(id, Delete);
      tombs := tombs[id := Tombstone(changeId, parent, name)];
      rows := rows - {id};
      assert pruned + log == old(pruned + log) + [Entry(changeId, id, Delete)];
    }

    method ChangesSince(t: nat) returns (changes: seq<Entry>)
      requires Valid()
      ensures changes == DavSync.ChangesSince(Value(), t)
    {
      changes := [];
      for i := 0 to |log|
        invariant changes == Since(log[..i], t)
      {
        assert log[..i + 1] == log[..i] + [log[i]];
        SinceSnoc(log[..i], log[i], t);
        if log[i].changeId > t { changes := changes + [log[i]]; }
      }
      assert log[..|log|] == log;
      StoredSince(pruned, log, floor, t);
    }

    /** Drops entries up to the cutoff, stopping at the first one past it. */
    method Prune(keep: nat)
      requires Valid()
      modifies this
      ensures Valid() && Value() == DavStore.Prune(old(Value()), keep)
    {
      var kept := if keep == 0 then 1 else keep;
      var cutoff := if lastChange > kept then lastChange - kept else 0;
      var n := 0;
      while n < |log| && log[n].changeId <= cutoff
        invariant n <= |log|
        invariant forall i | 0 <= i < n :: log[i].changeId <= cutoff
      {
        n := n + 1;
      }
      PruneFrom(pruned, log, floor, lastChange, n, cutoff);
      assert DavStore.Prune(Value(), keep) == if n > 0 then Value().(floor := cutoff) else Value();
      if n > 0 {
        pruned, log, floor := pruned + log[..n], log[n..], cutoff;
      }
    }
  }

  /** Entries up to the cutoff are a prefix of what is stored. */
  lemma PruneFrom(pruned: seq<Entry>, log: seq<Entry>, floor: nat, lastChange: nat, n: nat, cutoff: nat)
    requires Parted(pruned, log, floor, lastChange) && n <= |log| && cutoff <= lastChange
    requires forall i | 0 <= i < n :: log[i].changeId <= cutoff
    requires n < |log| ==> log[n].changeId > cutoff
    ensures (exists e | e in pruned + log :: floor < e.changeId <= cutoff) <==> n > 0
    ensures pruned + log[..n] + log[n..] == pruned + log
    ensures n > 0 ==> Parted(pruned + log[..n], log[n..], cutoff, lastChange)
  {
    var whole := pruned + log;
    assert pruned + log[..n] + log[n..] == whole;
    forall i | n <= i < |log| ensures log[i].changeId > cutoff {
      assert whole[|pruned| + i] == log[i] && whole[|pruned| + n] == log[n];
    }
    if n > 0 {
      assert whole[|pruned|] == log[0];
    }
  }

  /** The children by ascending id, one batch each, and then the parent. */
  ghost predicate DropsParent(f: Family, id: nat, f': Family)
  {
    id in f.parents.rows && exists ids :: Children(f, id, ids) && f' == DropParent(DropChildren(f, ids), id)
  }

  function Under(rows: map<nat, Object>, ids: seq<nat>, parent: nat): seq<Object>
  {
    if ids == [] then [] else
      var n := |ids| - 1;
      Under(rows, ids[..n], parent) +
      if ids[n] in rows && rows[ids[n]].parent == parent then [rows[ids[n]]] else []
  }

  lemma UnderSnoc(rows: map<nat, Object>, ids: seq<nat>, id: nat, parent: nat)
    ensures Under(rows, ids + [id], parent) ==
            Under(rows, ids, parent) + if id in rows && rows[id].parent == parent then [rows[id]] else []
  {
    assert (ids + [id])[..|ids|] == ids;
  }

  lemma {:induction false} UnderExact(rows: map<nat, Object>, ids: seq<nat>, parent: nat)
    requires Rising(ids) && forall id | id in rows :: rows[id].id == id
    ensures forall o | o in Under(rows, ids, parent) ::
              o.id in ids && o.id in rows && rows[o.id] == o && o.parent == parent
    ensures forall id | id in ids && id in rows && rows[id].parent == parent :: rows[id] in Under(rows, ids, parent)
    ensures Rising(IdsOf(Under(rows, ids, parent)))
  {
    if ids != [] {
      var n := |ids| - 1;
      var head, last := Under(rows, ids[..n], parent), ids[n];
      UnderExact(rows, ids[..n], parent);
      forall i | 0 <= i < |head| ensures head[i].id < last {
        assert head[i] in head;
        var j :| 0 <= j < n && ids[j] == head[i].id;
      }
      assert ids == ids[..n] + [last];
    }
  }

  // ----- A family of collections: calendars with events, or address books with cards -----

  class DavFamily {
    const parents: Collection<Parent>
    const objects: Collection<Object>

    ghost predicate Valid()
      reads this, parents, objects
    {
      && parents.Valid() && objects.Valid()
      && (forall id | id in objects.rows :: objects.rows[id].id == id)
    }

    ghost function Value(): Family
      reads this, parents, objects
    {
      Family(parents.Value(), objects.Value())
    }

    constructor ()
      ensures Valid() && fresh(parents) && fresh(objects) && Value() == Family(EmptyColl(), EmptyColl())
    {
      parents := new Collection<Parent>();
      objects := new Collection<Object>();
    }

    /** The objects of one parent, in ascending id order. */
    method List(parent: nat) returns (found: seq<Object>)
      requires Valid()
      ensures forall o :: o in found <==> o.id in objects.rows && objects.rows[o.id] == o && o.parent == parent
      ensures Rising(IdsOf(found))
    {
      var ids := Ascending(objects.rows.Keys);
      found := [];
      for i := 0 to |ids|
        invariant found == Under(objects.rows, ids[..i], parent)
      {
        UnderSnoc(objects.rows, ids[..i], ids[i], parent);
        assert ids[..i + 1] == ids[..i] + [ids[i]];
        assert ids[i] in ids;
        var o := objects.rows[ids[i]];
        if o.parent == parent { found := found + [o]; }
      }
      assert ids[..|ids|] == ids;
      UnderExact(objects.rows, ids, parent);
    }

    method ByName(parent: nat, name: string) returns (r: Option<Object>)
      requires Valid()
      ensures r == DavStore.ByName(objects.Value(), parent, name)
      ensures r.Some? ==> r.value.id in objects.rows && objects.rows[r.value.id] == r.value
    {
      var found := List(parent);
      ghost var c := objects.Value();
      for i := 0 to |found|
        invariant forall k | 0 <= k < i :: found[k].name != name
      {
        assert found[i] in found;
        if found[i].name == name {
          forall other | other in c.rows && Named(c.rows[other], parent, name) ensures found[i].id <= other {
            assert c.rows[other] in found;
          }
          assert IsFirstNamed(c, parent, name, found[i].id);
          return Some(found[i]);
        }
      }
      forall id | id in c.rows ensures !Named(c.rows[id], parent, name) {
        assert c.rows[id].parent == parent ==> c.rows[id] in found;
      }
      r := None;
    }

    method Create(name: string, displayName: string, now: nat) returns (made: Parent)
      requires Valid()
      modifies parents
      ensures Valid() && made == Parent(Allocated(old(parents.Value())).1, name, displayName, now, now)
      ensures parents.Value() == DavStore.WriteRecord(Allocated(old(parents.Value())).0, made.id, made, Insert)
    {
      var id := parents.AllocateId();
      made := Parent(id, name, displayName, now, now);
      parents.WriteRecord(id, made, Insert);
    }

    /** Writes a parent back as its caller holds it, with a new time; whether it is still there is not asked. */
    method Save(parent: Parent, now: nat)
      requires Valid()
      modifies parents
      ensures Valid() && parents.Value() ==
                         DavStore.WriteRecord(old(parents.Value()), parent.id, parent.(modified := now), Update)
    {
      parents.WriteRecord(parent.id, parent.(modified := now), Update);
    }

    /** While ids last, the invariant of the objects is kept; naming a live parent orphans nothing. */
    method Upsert(parent: nat, name: string, body: string, now: nat) returns (o: Object, created: bool)
      requires Valid()
      modifies objects
      ensures Valid() && objects.Value() == DavStore.Upsert(old(objects.Value()), parent, name, body, now)
      ensures created <==> DavStore.ByName(old(objects.Value()), parent, name).None?
      ensures o.id in objects.rows && objects.rows[o.id] == o && Named(o, parent, name) && o.body == body
      ensures old(CollInv(objects.Value()) && IdsLeft(objects.Value())) ==> CollInv(objects.Value())
      ensures old(NoOrphans(Value())) ==> (NoOrphans(Value()) <==> parent in parents.rows)
    {
      ghost var family, before := Value(), objects.Value();
      var existing := ByName(parent, name);
      created := existing.None?;
      var id, createdAt, kind;
      if existing.Some? {
        id, createdAt, kind := existing.value.id, existing.value.created, Update;
      } else {
        createdAt, kind := now, Insert;
        id := objects.AllocateId();
      }
      o := Object(id, parent, name, body, createdAt, now);
      objects.WriteRecord(id, o, kind);
      if CollInv(before) && IdsLeft(before) { UpsertKeeps(before, parent, name, body, now); }
      if NoOrphans(family) { UpsertOrphansIff(family, parent, name, body, now); }
    }

    method Delete(parent: nat, name: string) returns (found: bool)
      requires Valid()
      modifies objects
      ensures Valid() && objects.Value() == DavStore.DeleteByName(old(objects.Value()), parent, name)
      ensures found <==> DavStore.ByName(old(objects.Value()), parent, name).Some?
      ensures old(CollInv(objects.Value())) ==> CollInv(objects.Value())
      ensures old(NoOrphans(Value())) ==> NoOrphans(Value())
    {
      ghost var family, before := Value(), objects.Value();
      var existing := ByName(parent, name);
      found := existing.Some?;
      if found { objects.DeleteRecord(existing.value.id, parent, name); }
      if CollInv(before) { DeleteByNameKeeps(before, parent, name); }
      if NoOrphans(family) { DeleteOrphansNothing(family, parent, name); }
    }

    /** Deletes the children one batch at a time, by ascending id. */
    method DeleteChildren(parent: nat) returns (ghost ids: seq<nat>)
      requires Valid()
      modifies objects
      ensures Valid() && Children(old(Value()), parent, ids) && Value() == DropChildren(old(Value()), ids)
    {
      var children := List(parent);
      ghost var before := Value();
      ids := IdsOf(children);
      ListedAreChildren(before, parent, children, ids);
      for i := 0 to |children|
        invariant Valid() && Value() == DropChildren(before, ids[..i])
      {
        DropNext(before, parent, children, ids, i);
        objects.DeleteRecord(children[i].id, parent, children[i].name);
      }
      assert ids[..|ids|] == ids;
    }

    /** The children first, then the parent. */
    method DeleteParent(id: nat) returns (found: bool)
      requires Valid()
      modifies parents, objects
      ensures Valid() && (found <==> id in old(parents.rows))
      ensures !found ==> Value() == old(Value())
      ensures found ==> DropsParent(old(Value()), id, Value())
      ensures old(NoOrphans(Value())) ==> NoOrphans(Value())
    {
      found := id in parents.rows;
      if !found { return; }
      ghost var before := Value();
      ghost var ids := DeleteChildren(id);
      parents.DeleteRecord(id, 0, parents.rows[id].name);
      DeleteParentExact(before, id, ids);
    }

    /** Rows of this parent, as the names gone and the objects present, with their change ids. */
    method Include(parent: nat, rows: seq<Row>, ghost standing: seq<Entry>) returns (items: seq<Item>, ids: seq<nat>)
      requires |rows| == |standing| && forall i | 0 <= i < |rows| :: rows[i] == RowOf(standing[i])
      ensures var kept := Included(objects.Value(), parent, standing);
              && AllRelevant(objects.Value(), parent, kept)
              && items == Told(objects.Value(), parent, kept)
              && |ids| == |kept| && forall k | 0 <= k < |ids| :: ids[k] == kept[k].changeId
    {
      ghost var c := objects.Value();
      ids, items := [], [];
      for i := 0 to |rows|
        invariant AllRelevant(c, parent, Included(c, parent, standing[..i]))
        invariant items == Told(c, parent, Included(c, parent, standing[..i]))
        invariant |ids| == |Included(c, parent, standing[..i])|
        invariant forall k | 0 <= k < |ids| :: ids[k] == Included(c, parent, standing[..i])[k].changeId
      {
        ToldStep(c, parent, standing, i);
        var row := rows[i];
        if row.deleted {
          if row.document in objects.tombs && objects.tombs[row.document].parent == parent {
            ids, items := ids + [row.changeId], items + [Gone(objects.tombs[row.document].name)];
          }
        } else if row.document in objects.rows && objects.rows[row.document].parent == parent {
          ids, items := ids + [row.changeId], items + [Present(objects.rows[row.document])];
        }
      }
      assert standing[..|standing|] == standing;
    }

    /** The report on one parent since a token. */
    method Report(parent: nat, since: nat, limit: Option<nat>) returns (items: seq<Item>, token: nat)
      requires Valid()
      ensures var page := DavSync.Report(objects.Value(), parent, since, limit);
              && AllRelevant(objects.Value(), parent, page.rows)
              && items == Told(objects.Value(), parent, page.rows) && token == page.token
    {
      var changes := objects.ChangesSince(since);
      ChangesAscend(objects.Value(), since);
      var rows := CoalesceChanges(changes);
      var ids;
      items, ids := Include(parent, rows, Coalesce(changes));
      token := if changes == [] then objects.lastChange else changes[|changes| - 1].changeId;
      if limit.Some? && |items| > limit.value {
        ToldPrefix(objects.Value(), parent, AllRows(objects.Value(), parent, since), limit.value);
        items := items[..limit.value];
        token := if limit.value == 0 then since else ids[limit.value - 1];
      }
    }
  }

  function IdsOf(objects: seq<Object>): (ids: seq<nat>)
    ensures |ids| == |objects| && forall i | 0 <= i < |ids| :: ids[i] == objects[i].id
  {
    seq(|objects|, i requires 0 <= i < |objects| => objects[i].id)
  }

  /** One more child dropped is one more record deleted under its own parent and name. */
  lemma DropNext(f: Family, parent: nat, children: seq<Object>, ids: seq<nat>, i: nat)
    requires i < |children| && |ids| == |children| && Children(f, parent, ids)
    requires forall k | 0 <= k < |ids| :: ids[k] == children[k].id && f.objects.rows[ids[k]] == children[k]
    ensures var g := DropChildren(f, ids[..i]);
            DropChildren(f, ids[..i + 1]) ==
            g.(objects := DavStore.DeleteRecord(g.objects, children[i].id, parent, children[i].name))
  {
    assert ids[..i + 1][..i] == ids[..i];
  }

  lemma ListedAreChildren(f: Family, parent: nat, children: seq<Object>, ids: seq<nat>)
    requires |ids| == |children| && forall i | 0 <= i < |ids| :: ids[i] == children[i].id
    requires forall o :: o in children <==> o.id in f.objects.rows && f.objects.rows[o.id] == o && o.parent == parent
    requires Rising(ids) && forall id | id in f.objects.rows :: f.objects.rows[id].id == id
    ensures Children(f, parent, ids) && forall i | 0 <= i < |ids| :: f.objects.rows[ids[i]] == children[i]
  {
    forall i | 0 <= i < |ids| ensures ids[i] in f.objects.rows && f.objects.rows[ids[i]] == children[i] {
      assert children[i] in children;
    }
    forall id | id in f.objects.rows && f.objects.rows[id].parent == parent ensures id in ids {
      assert f.objects.rows[id] in children;
      var i :| 0 <= i < |children| && children[i] == f.objects.rows[id];
      assert ids[i] == id;
    }
  }

  lemma ChangesAscend(c: Coll<Object>, t: nat)
    requires Ascends(c.log)
    ensures Ascends(ChangesSince(c, t))
  {
    SinceAscends(c.log, if t < c.floor then c.floor else t);
  }

  // ----- What goes over the wire -----

  datatype Item = Gone(name: string) | Present(object: Object)

  function ItemOf(c: Coll<Object>, parent: nat, e: Entry): Item
    requires Relevant(c, parent, e)
  {
    if e.kind == Delete then Gone(c.tombs[e.document].name) else Present(c.rows[e.document])
  }

  function Told(c: Coll<Object>, parent: nat, rows: seq<Entry>): (items: seq<Item>)
    requires AllRelevant(c, parent, rows)
    ensures |items| == |rows|
  {
    if rows == [] then [] else
      var n := |rows| - 1;
      assert rows[n] in rows;
      Told(c, parent, rows[..n]) + [ItemOf(c, parent, rows[n])]
  }

  lemma ToldSnoc(c: Coll<Object>, parent: nat, rows: seq<Entry>, e: Entry)
    requires AllRelevant(c, parent, rows) && Relevant(c, parent, e)
    ensures AllRelevant(c, parent, rows + [e])
    ensures Told(c, parent, rows + [e]) == Told(c, parent, rows) + [ItemOf(c, parent, e)]
  {
    assert (rows + [e])[..|rows|] == rows;
  }

  lemma ToldStep(c: Coll<Object>, parent: nat, standing: seq<Entry>, i: nat)
    requires i < |standing| && AllRelevant(c, parent, Included(c, parent, standing[..i]))
    ensures var part, next := Included(c, parent, standing[..i]), Included(c, parent, standing[..i + 1]);
            && AllRelevant(c, parent, next)
            && if Relevant(c, parent, standing[i])
               then next == part + [standing[i]]
                    && Told(c, parent, next) == Told(c, parent, part) + [ItemOf(c, parent, standing[i])]
               else next == part
  {
    assert standing[..i + 1][..i] == standing[..i];
    if Relevant(c, parent, standing[i]) { ToldSnoc(c, parent, Included(c, parent, standing[..i]), standing[i]); }
  }

  lemma {:induction false} ToldPrefix(c: Coll<Object>, parent: nat, rows: seq<Entry>, k: nat)
    requires AllRelevant(c, parent, rows) && k <= |rows|
    ensures AllRelevant(c, parent, rows[..k]) && Told(c, parent, rows[..k]) == Told(c, parent, rows)[..k]
  {
    if k < |rows| {
      var n := |rows| - 1;
      ToldPrefix(c, parent, rows[..n], k);
      assert rows[..n][..k] == rows[..k];
    } else {
      assert rows[..k] == rows;
    }
  }

  function Take(client: Client, items: seq<Item>): Client
  {
    if items == [] then client else
      var n := |items| - 1;
      var r := Take(client, items[..n]);
      match items[n] case Gone(name) => r - {name} case Present(o) => r[o.name := o]
  }

  /** A client that only sees the items ends up where the rows would take it. */
  lemma {:induction false} TakeIsApply(client: Client, c: Coll<Object>, parent: nat, rows: seq<Entry>)
    requires AllRelevant(c, parent, rows)
    ensures Take(client, Told(c, parent, rows)) == ApplyRows(client, c, parent, rows)
  {
    if rows != [] {
      var n := |rows| - 1;
      assert rows[n] in rows;
      TakeIsApply(client, c, parent, rows[..n]);
      assert Told(c, parent, rows)[..n] == Told(c, parent, rows[..n]);
    }
  }

  // ----- coalesce -----

  datatype Row = Row(changeId: nat, document: nat, deleted: bool)

  datatype Slot = Slot(changeId: nat, inserted: bool, deleted: bool)

  /** The greatest change id among a document's changes, 0 if it has none. */
  function Latest(changes: seq<Entry>, id: nat): nat
  {
    if changes == [] then 0 else
      var n := |changes| - 1;
      var r := Latest(changes[..n], id);
      if changes[n].document == id && changes[n].changeId > r then changes[n].changeId else r
  }

  function SlotOf(changes: seq<Entry>, id: nat): Option<Slot>
  {
    var last := LastOf(changes, id);
    if last.None? then None else Some(Slot(Latest(changes, id), HasInsert(changes, id), last.value.kind == Delete))
  }

  predicate InOrder(rows: seq<Row>)
  {
    forall i, j | 0 <= i < j < |rows| :: rows[i].changeId <= rows[j].changeId
  }

  predicate RowFor(changes: seq<Entry>, row: Row)
  {
    var slot := SlotOf(changes, row.document);
    && slot.Some? && row.changeId == slot.value.changeId && row.deleted == slot.value.deleted
    && !(slot.value.inserted && slot.value.deleted)
  }

  lemma SlotSnoc(changes: seq<Entry>, e: Entry, id: nat)
    ensures var slot := SlotOf(changes, id);
            SlotOf(changes + [e], id) ==
            if id != e.document then slot
            else
              var s := if slot.Some? then slot.value else Slot(0, false, false);
              Some(Slot(if e.changeId > s.changeId then e.changeId else s.changeId,
                        s.inserted || e.kind == Insert, e.kind == Delete))
  {
    var grown := changes + [e];
    assert grown[..|changes|] == changes;
    LastOfSnoc(changes, e, id);
    assert forall d :: d in grown <==> d in changes || d == e;
    if LastOf(changes, id).None? { NeverMentioned(changes, id); }
    assert HasInsert(grown, id) <==> HasInsert(changes, id) || (e.document == id && e.kind == Insert);
  }

  lemma {:induction false} NeverMentioned(changes: seq<Entry>, id: nat)
    requires LastOf(changes, id).None?
    ensures Latest(changes, id) == 0 && forall e | e in changes :: e.document != id
  {
    if changes != [] {
      NeverMentioned(changes[..|changes| - 1], id);
      assert changes == changes[..|changes| - 1] + [changes[|changes| - 1]];
    }
  }

  /** One row per document that did not both come and go, in order of change id; on an ascending log
      these are the entries that stand. */
  method CoalesceChanges(changes: seq<Entry>) returns (rows: seq<Row>)
    ensures InOrder(rows)
    ensures forall row :: row in rows <==> RowFor(changes, row)
    ensures OnePerDocument(rows)
    ensures Ascends(changes) ==>
              && |rows| == |Coalesce(changes)|
              && forall i | 0 <= i < |rows| :: rows[i] == RowOf(Coalesce(changes)[i])
  {
    var seen := Slots(changes);
    var ids := Ascending(seen.Keys);
    rows := [];
    for i := 0 to |ids|
      invariant InOrder(rows)
      invariant forall row :: row in rows <==> RowFor(changes, row) && row.document in ids[..i]
      invariant OnePerDocument(rows)
    {
      assert ids[..i + 1] == ids[..i] + [ids[i]];
      assert ids[i] in ids;
      forall k | 0 <= k < |rows| ensures rows[k].document != ids[i] { assert rows[k] in rows; }
      var slot := seen[ids[i]];
      if !(slot.inserted && slot.deleted) {
        rows := InsertRow(rows, Row(slot.changeId, ids[i], slot.deleted));
      }
    }
    assert ids[..|ids|] == ids;
    forall row | RowFor(changes, row) ensures row in rows { assert row.document in ids; }
    if Ascends(changes) { StandingRows(changes, rows); }
  }

  method Slots(changes: seq<Entry>) returns (seen: map<nat, Slot>)
    ensures forall id :: id in seen <==> SlotOf(changes, id).Some?
    ensures forall id | id in seen :: SlotOf(changes, id) == Some(seen[id])
  {
    seen := map[];
    for i := 0 to |changes|
      invariant forall id :: id in seen <==> SlotOf(changes[..i], id).Some?
      invariant forall id | id in seen :: SlotOf(changes[..i], id) == Some(seen[id])
    {
      var e := changes[i];
      assert changes[..i + 1] == changes[..i] + [e];
      forall id { SlotSnoc(changes[..i], e, id); }
      var slot := if e.document in seen then seen[e.document] else Slot(0, false, false);
      slot := slot.(changeId := if e.changeId > slot.changeId then e.changeId else slot.changeId);
      match e.kind {
        case Insert => slot := slot.(inserted := true, deleted := false);
        case Update => slot := slot.(deleted := false);
        case Delete => slot := slot.(deleted := true);
      }
      seen := seen[e.document := slot];
    }
    assert changes[..|changes|] == changes;
  }

  predicate OnePerDocument(rows: seq<Row>)
  {
    forall i, j | 0 <= i < j < |rows| :: rows[i].document != rows[j].document
  }

  /** One step of a stable sort by change id. */
  method InsertRow(rows: seq<Row>, row: Row) returns (r: seq<Row>)
    requires InOrder(rows) && OnePerDocument(rows) && forall i | 0 <= i < |rows| :: rows[i].document != row.document
    ensures InOrder(r) && OnePerDocument(r) && forall x :: x in r <==> x in rows || x == row
  {
    var k: nat := |rows|;
    while k > 0 && rows[k - 1].changeId > row.changeId
      invariant k <= |rows| && (k < |rows| ==> rows[k].changeId > row.changeId)
    {
      k := k - 1;
    }
    r := rows[..k] + [row] + rows[k..];
    InsertedShifted(rows, row, k, r);
    InsertedInOrder(rows, row, k, r);
    InsertedOnePer(rows, row, k, r);
  }

  lemma InsertedShifted(rows: seq<Row>, row: Row, k: nat, r: seq<Row>)
    requires k <= |rows| && r == rows[..k] + [row] + rows[k..]
    ensures |r| == |rows| + 1 && forall i | 0 <= i < |r| :: r[i] == Shifted(rows, row, k, i)
    ensures forall x :: x in r <==> x in rows || x == row
  {
    assert rows == rows[..k] + rows[k..];
  }

  function Shifted(rows: seq<Row>, row: Row, k: nat, i: nat): Row
    requires k <= |rows| && i <= |rows|
  {
    if i < k then rows[i] else if i == k then row else rows[i - 1]
  }

  lemma InsertedInOrder(rows: seq<Row>, row: Row, k: nat, r: seq<Row>)
    requires InOrder(rows) && k <= |rows| && |r| == |rows| + 1
    requires forall i | 0 <= i < |r| :: r[i] == Shifted(rows, row, k, i)
    requires (k > 0 ==> rows[k - 1].changeId <= row.changeId) && (k < |rows| ==> rows[k].changeId > row.changeId)
    ensures InOrder(r)
  {
    forall i, j | 0 <= i < j < |r| ensures r[i].changeId <= r[j].changeId {
      assert r[i] == Shifted(rows, row, k, i) && r[j] == Shifted(rows, row, k, j);
    }
  }

  lemma InsertedOnePer(rows: seq<Row>, row: Row, k: nat, r: seq<Row>)
    requires OnePerDocument(rows) && k <= |rows| && |r| == |rows| + 1
    requires forall i | 0 <= i < |rows| :: rows[i].document != row.document
    requires forall i | 0 <= i < |r| :: r[i] == Shifted(rows, row, k, i)
    ensures OnePerDocument(r)
  {
    forall i, j | 0 <= i < j < |r| ensures r[i].document != r[j].document {
      assert r[i] == Shifted(rows, row, k, i) && r[j] == Shifted(rows, row, k, j);
    }
  }

  function RowOf(e: Entry): Row
  {
    Row(e.changeId, e.document, e.kind == Delete)
  }

  lemma {:induction false} LatestIsLast(changes: seq<Entry>, id: nat)
    requires Ascends(changes) && LastOf(changes, id).Some?
    ensures Latest(changes, id) == LastOf(changes, id).value.changeId
  {
    var n := |changes| - 1;
    var head := changes[..n];
    if changes[n].document == id {
      if LastOf(head, id).Some? {
        LatestIsLast(head, id);
        LastOfIn(head, id);
      } else {
        NeverMentioned(head, id);
      }
    } else {
      LatestIsLast(head, id);
    }
  }

  lemma RowForIffStands(changes: seq<Entry>, row: Row)
    requires Ascends(changes)
    ensures RowFor(changes, row) <==> exists e :: e in Coalesce(changes) && RowOf(e) == row
  {
    if LastOf(changes, row.document).Some? {
      LatestIsLast(changes, row.document);
      LastOfIn(changes, row.document);
      StandingExact(changes, changes, LastOf(changes, row.document).value);
    }
    forall e | e in Coalesce(changes) ensures e in changes && Stands(changes, e) {
      StandingExact(changes, changes, e);
    }
  }

  predicate StrictlyInOrder(rows: seq<Row>)
  {
    forall i, j | 0 <= i < j < |rows| :: rows[i].changeId < rows[j].changeId
  }

  lemma SameLastRow(rows: seq<Row>, others: seq<Row>)
    requires StrictlyInOrder(rows) && StrictlyInOrder(others) && rows != [] && SameMembers(rows, others)
    ensures others != [] && rows[|rows| - 1] == others[|others| - 1]
  {
    var last := rows[|rows| - 1];
    assert last in others;
    var i :| 0 <= i < |others| && others[i] == last;
    var last' := others[|others| - 1];
    assert last' in rows;
    var j :| 0 <= j < |rows| && rows[j] == last';
  }

  lemma WithoutLastRow(rows: seq<Row>, row: Row)
    requires StrictlyInOrder(rows) && rows != []
    ensures row in rows[..|rows| - 1] <==> row in rows && row != rows[|rows| - 1]
  {
    assert rows == rows[..|rows| - 1] + [rows[|rows| - 1]];
  }

  predicate SameMembers(rows: seq<Row>, others: seq<Row>)
  {
    (forall row | row in rows :: row in others) && (forall row | row in others :: row in rows)
  }

  lemma SameWithoutLast(rows: seq<Row>, others: seq<Row>)
    requires StrictlyInOrder(rows) && StrictlyInOrder(others) && rows != [] && SameMembers(rows, others)
    ensures others != [] && rows[|rows| - 1] == others[|others| - 1]
    ensures SameMembers(rows[..|rows| - 1], others[..|others| - 1])
  {
    SameLastRow(rows, others);
    var m, n := |rows| - 1, |others| - 1;
    forall row ensures row in rows[..m] <==> row in others[..n] {
      WithoutLastRow(rows, row);
      WithoutLastRow(others, row);
    }
  }

  /** Two ways of listing the same rows in strictly ascending order agree. */
  lemma {:induction false} SameRows(rows: seq<Row>, others: seq<Row>)
    requires StrictlyInOrder(rows) && StrictlyInOrder(others) && SameMembers(rows, others)
    ensures rows == others
  {
    assert others != [] ==> others[0] in rows;
    if rows != [] {
      var m, n := |rows| - 1, |others| - 1;
      SameWithoutLast(rows, others);
      SameRows(rows[..m], others[..n]);
      assert rows == rows[..m] + [rows[m]] && others == others[..n] + [others[n]];
    }
  }

  lemma StandingRows(changes: seq<Entry>, rows: seq<Row>)
    requires Ascends(changes) && InOrder(rows)
    requires forall row :: row in rows <==> RowFor(changes, row)
    requires OnePerDocument(rows)
    ensures |rows| == |Coalesce(changes)| && forall i | 0 <= i < |rows| :: rows[i] == RowOf(Coalesce(changes)[i])
  {
    var standing := Coalesce(changes);
    StandingAscends(changes, changes);
    var others := seq(|standing|, i requires 0 <= i < |standing| => RowOf(standing[i]));
    forall row ensures row in rows <==> row in others {
      RowForIffStands(changes, row);
      if e :| e in standing && RowOf(e) == row {
        var i :| 0 <= i < |standing| && standing[i] == e;
        assert others[i] == row;
      }
      if row in others {
        var i :| 0 <= i < |others| && others[i] == row;
        assert standing[i] in standing;
      }
    }
    forall i, j | 0 <= i < j < |rows| ensures rows[i].changeId < rows[j].changeId {
      assert rows[i] in others && rows[j] in others;
    }
    SameRows(rows, others);
  }
}
