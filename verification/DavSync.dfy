/** Collection synchronization (section 3.5 of RFC 6578): what a report contains, what a client makes
    of it, and why any interleaving of edits, prunes and page requests keeps the client's copy true. */
module DavSync {
  import opened Common
  import opened DavStore

  // ----- changes_since -----

  function Since(log: seq<Entry>, t: nat): seq<Entry>
  {
    if log == [] then [] else
      var n := |log| - 1;
      Since(log[..n], t) + if log[n].changeId > t then [log[n]] else []
  }

  /** The entries after t that pruning has left. */
  function ChangesSince<T>(c: Coll<T>, t: nat): seq<Entry>
  {
    Since(c.log, if t < c.floor then c.floor else t)
  }

  lemma SinceSnoc(log: seq<Entry>, e: Entry, t: nat)
    ensures Since(log + [e], t) == Since(log, t) + if e.changeId > t then [e] else []
  {
    assert (log + [e])[..|log|] == log;
  }

  lemma {:induction false} SinceExact(log: seq<Entry>, t: nat, e: Entry)
    ensures e in Since(log, t) <==> e in log && e.changeId > t
  {
    if log != [] {
      var n := |log| - 1;
      SinceExact(log[..n], t, e);
      assert log == log[..n] + [log[n]];
    }
  }

  lemma AscendsSnoc(log: seq<Entry>, e: Entry)
    requires Ascends(log) && forall d | d in log :: d.changeId < e.changeId
    ensures Ascends(log + [e])
  {
    forall i | 0 <= i < |log| ensures log[i].changeId < e.changeId { assert log[i] in log; }
  }

  lemma {:induction false} SinceAscends(log: seq<Entry>, t: nat)
    requires Ascends(log)
    ensures Ascends(Since(log, t))
  {
    if log != [] {
      var n := |log| - 1;
      SinceAscends(log[..n], t);
      forall d | d in Since(log[..n], t) ensures d.changeId < log[n].changeId {
        SinceExact(log[..n], t, d);
      }
      if log[n].changeId > t { AscendsSnoc(Since(log[..n], t), log[n]); }
    }
  }

  lemma {:induction false} LastOfSince(log: seq<Entry>, t: nat, id: nat)
    requires Ascends(log)
    ensures LastOf(Since(log, t), id) ==
            if LastOf(log, id).Some? && LastOf(log, id).value.changeId > t then LastOf(log, id) else None
  {
    if log != [] {
      var n := |log| - 1;
      assert log == log[..n] + [log[n]];
      LastOfSince(log[..n], t, id);
      LastOfSnoc(log[..n], log[n], id);
      SinceSnoc(log[..n], log[n], t);
      if log[n].changeId > t {
        LastOfSnoc(Since(log[..n], t), log[n], id);
      } else {
        assert Since(log, t) == Since(log[..n], t);
        if LastOf(log[..n], id).Some? { LastOfIn(log[..n], id); }
      }
    }
  }

  // ----- coalesce: one row per document, the last change of each -----

  predicate HasInsert(changes: seq<Entry>, id: nat)
  {
    exists e | e in changes :: e.document == id && e.kind == Insert
  }

  /** A document's last change stands for it, unless it both came and went inside the window. */
  predicate Stands(changes: seq<Entry>, e: Entry)
  {
    LastOf(changes, e.document) == Some(e) && !(e.kind == Delete && HasInsert(changes, e.document))
  }

  function Standing(changes: seq<Entry>, part: seq<Entry>): seq<Entry>
  {
    if part == [] then [] else
      var n := |part| - 1;
      Standing(changes, part[..n]) + if Stands(changes, part[n]) then [part[n]] else []
  }

  function Coalesce(changes: seq<Entry>): seq<Entry>
  {
    Standing(changes, changes)
  }

  lemma {:induction false} StandingExact(changes: seq<Entry>, part: seq<Entry>, e: Entry)
    ensures e in Standing(changes, part) <==> e in part && Stands(changes, e)
  {
    if part != [] {
      var n := |part| - 1;
      StandingExact(changes, part[..n], e);
      assert part == part[..n] + [part[n]];
    }
  }

  lemma {:induction false} StandingAscends(changes: seq<Entry>, part: seq<Entry>)
    requires Ascends(part)
    ensures Ascends(Standing(changes, part))
  {
    if part != [] {
      var n := |part| - 1;
      StandingAscends(changes, part[..n]);
      forall d | d in Standing(changes, part[..n]) ensures d.changeId < part[n].changeId {
        StandingExact(changes, part[..n], d);
      }
      if Stands(changes, part[n]) { AscendsSnoc(Standing(changes, part[..n]), part[n]); }
    }
  }

  // ----- The report -----

  /** A deletion is told by its tombstone, anything else by the live object; only the requested parent's. */
  predicate Relevant(c: Coll<Object>, parent: nat, e: Entry)
  {
    if e.kind == Delete then e.document in c.tombs && c.tombs[e.document].parent == parent
    else e.document in c.rows && c.rows[e.document].parent == parent
  }

  function Included(c: Coll<Object>, parent: nat, rows: seq<Entry>): seq<Entry>
  {
    if rows == [] then [] else
      var n := |rows| - 1;
      Included(c, parent, rows[..n]) + if Relevant(c, parent, rows[n]) then [rows[n]] else []
  }

  lemma {:induction false} IncludedExact(c: Coll<Object>, parent: nat, rows: seq<Entry>, e: Entry)
    ensures e in Included(c, parent, rows) <==> e in rows && Relevant(c, parent, e)
  {
    if rows != [] {
      var n := |rows| - 1;
      IncludedExact(c, parent, rows[..n], e);
      assert rows == rows[..n] + [rows[n]];
    }
  }

  lemma {:induction false} IncludedAscends(c: Coll<Object>, parent: nat, rows: seq<Entry>)
    requires Ascends(rows)
    ensures Ascends(Included(c, parent, rows))
  {
    if rows != [] {
      var n := |rows| - 1;
      IncludedAscends(c, parent, rows[..n]);
      forall d | d in Included(c, parent, rows[..n]) ensures d.changeId < rows[n].changeId {
        IncludedExact(c, parent, rows[..n], d);
      }
      if Relevant(c, parent, rows[n]) { AscendsSnoc(Included(c, parent, rows[..n]), rows[n]); }
    }
  }

  /** The rows of one report and the token it ends with. */
  datatype Page = Page(rows: seq<Entry>, token: nat)

  function AllRows(c: Coll<Object>, parent: nat, since: nat): seq<Entry>
  {
    Included(c, parent, Coalesce(ChangesSince(c, since)))
  }

  function FullToken(c: Coll<Object>, since: nat): nat
  {
    var changes := ChangesSince(c, since);
    if changes == [] then c.lastChange else changes[|changes| - 1].changeId
  }

  predicate Truncated(c: Coll<Object>, parent: nat, since: nat, limit: Option<nat>)
  {
    limit.Some? && |AllRows(c, parent, since)| > limit.value
  }

  function Report(c: Coll<Object>, parent: nat, since: nat, limit: Option<nat>): Page
  {
    var rows := AllRows(c, parent, since);
    if Truncated(c, parent, since, limit) then
      Page(rows[..limit.value], if limit.value == 0 then since else rows[limit.value - 1].changeId)
    else Page(rows, FullToken(c, since))
  }

  // ----- The client -----

  type Client = map<string, Object>

  function ApplyRow(client: Client, c: Coll<Object>, parent: nat, e: Entry): Client
    requires Relevant(c, parent, e)
  {
    if e.kind == Delete then client - {c.tombs[e.document].name}
    else client[c.rows[e.document].name := c.rows[e.document]]
  }

  predicate AllRelevant(c: Coll<Object>, parent: nat, rows: seq<Entry>)
  {
    forall e | e in rows :: Relevant(c, parent, e)
  }

  function ApplyRows(client: Client, c: Coll<Object>, parent: nat, rows: seq<Entry>): Client
    requires AllRelevant(c, parent, rows)
  {
    if rows == [] then client else
      var n := |rows| - 1;
      assert rows[n] in rows;
      ApplyRow(ApplyRows(client, c, parent, rows[..n]), c, parent, rows[n])
  }

  /** Document id bears, or bore, this name within the parent. */
  predicate Bears(c: Coll<Object>, parent: nat, name: string, id: nat)
  {
    || (id in c.rows && Named(c.rows[id], parent, name))
    || (id in c.tombs && c.tombs[id].parent == parent && c.tombs[id].name == name)
  }

  ghost predicate AgreeAt(client: Client, c: Coll<Object>, parent: nat, name: string)
  {
    var o := ByName(c, parent, name);
    (name in client <==> o.Some?) && (o.Some? ==> name in client && client[name] == o.value)
  }

  /** The client's copy is the live collection. */
  ghost predicate InSync(client: Client, c: Coll<Object>, parent: nat)
  {
    forall name :: AgreeAt(client, c, parent, name)
  }

  predicate Untouched(c: Coll<Object>, parent: nat, name: string, t: nat)
  {
    forall e | e in c.log && e.changeId > t :: !Bears(c, parent, name, e.document)
  }

  /** id bore the name at token t: born by then and not yet dead. */
  predicate Backs(c: Coll<Object>, parent: nat, name: string, t: nat, id: nat)
  {
    && Bears(c, parent, name, id) && Born(c, id) <= t
    && (id in c.rows || (id in c.tombs && c.tombs[id].changeId > t))
  }

  /** A client holding token t: names without later changes agree with the store, and every name it
      holds was alive at t. */
  ghost predicate SyncedTo(client: Client, c: Coll<Object>, parent: nat, t: nat)
  {
    && t <= c.lastChange
    && (forall name | Untouched(c, parent, name, t) :: AgreeAt(client, c, parent, name))
    && (forall name | name in client :: exists id :: Backs(c, parent, name, t, id))
  }

  // ----- What a page contains -----

  /** The rows a page up to token t' must carry for a client at t. */
  predicate Due(c: Coll<Object>, parent: nat, t: nat, t': nat, e: Entry)
  {
    && e in c.log && t < e.changeId <= t'
    && LastOf(c.log, e.document) == Some(e)
    && !(e.kind == Delete && Born(c, e.document) > t)
    && Relevant(c, parent, e)
  }

  lemma InsertInWindow(c: Coll<Object>, t: nat, id: nat)
    requires LogWell(c) && LivesWell(c) && FirstOf(c.log, id).Some?
    ensures HasInsert(Since(c.log, t), id) <==> Born(c, id) > t
  {
    FirstOfIn(c.log, id);
    SinceExact(c.log, t, FirstOf(c.log, id).value);
    if HasInsert(Since(c.log, t), id) {
      var e :| e in Since(c.log, t) && e.document == id && e.kind == Insert;
      SinceExact(c.log, t, e);
    }
  }

  lemma StandsIffDue(c: Coll<Object>, t: nat, e: Entry)
    requires LogWell(c) && LivesWell(c) && e in c.log && e.changeId > t
    ensures Stands(Since(c.log, t), e) <==>
            LastOf(c.log, e.document) == Some(e) && !(e.kind == Delete && Born(c, e.document) > t)
  {
    LastOfSince(c.log, t, e.document);
    EntryBetween(c.log, e);
    InsertInWindow(c, t, e.document);
  }

  lemma AllRowsAreDue(c: Coll<Object>, parent: nat, t: nat, e: Entry)
    requires LogWell(c) && LivesWell(c) && c.floor <= t
    ensures e in AllRows(c, parent, t) <==> Due(c, parent, t, c.lastChange, e)
  {
    var changes := Since(c.log, t);
    IncludedExact(c, parent, Coalesce(changes), e);
    StandingExact(changes, changes, e);
    SinceExact(c.log, t, e);
    if e in c.log && e.changeId > t { StandsIffDue(c, t, e); }
  }

  lemma AllRowsAscend(c: Coll<Object>, parent: nat, t: nat)
    requires LogWell(c)
    ensures Ascends(AllRows(c, parent, t))
  {
    var changes := ChangesSince(c, t);
    SinceAscends(c.log, if t < c.floor then c.floor else t);
    StandingAscends(changes, changes);
    IncludedAscends(c, parent, Coalesce(changes));
  }

  lemma FullTokenBounds(c: Coll<Object>, t: nat)
    requires LogWell(c) && c.floor <= t <= c.lastChange
    ensures t <= FullToken(c, t) <= c.lastChange
    ensures forall e | e in c.log :: e.changeId <= FullToken(c, t)
  {
    var changes := Since(c.log, t);
    forall e ensures e in changes <==> e in c.log && e.changeId > t { SinceExact(c.log, t, e); }
    SinceAscends(c.log, t);
    if changes != [] {
      assert changes[|changes| - 1] in changes;
      forall e | e in changes ensures e.changeId <= changes[|changes| - 1].changeId {
        var i :| 0 <= i < |changes| && changes[i] == e;
      }
    }
  }

  lemma PrefixByToken(rows: seq<Entry>, k: nat, e: Entry)
    requires Ascends(rows) && 0 < k <= |rows|
    ensures e in rows[..k] <==> e in rows && e.changeId <= rows[k - 1].changeId
  {
    if e in rows {
      var i :| 0 <= i < |rows| && rows[i] == e;
      if i < k { assert rows[..k][i] == e; }
    }
    if e in rows[..k] {
      var i :| 0 <= i < k && rows[..k][i] == e;
      assert rows[i] == e;
    }
  }

  /** A page from a token pruning has not overtaken carries exactly the rows due up to its own token. */
  lemma PageIsExact(c: Coll<Object>, parent: nat, t: nat, limit: Option<nat>)
    requires CollInv(c) && c.floor <= t <= c.lastChange
    ensures var page := Report(c, parent, t, limit);
            && t <= page.token <= c.lastChange && Ascends(page.rows)
            && (forall e :: e in page.rows <==> Due(c, parent, t, page.token, e))
            && (Truncated(c, parent, t, limit) || forall e | e in c.log :: e.changeId <= page.token)
  {
    var rows, page := AllRows(c, parent, t), Report(c, parent, t, limit);
    AllRowsAscend(c, parent, t);
    FullTokenBounds(c, t);
    forall e ensures e in rows <==> Due(c, parent, t, c.lastChange, e) { AllRowsAreDue(c, parent, t, e); }
    if Truncated(c, parent, t, limit) && limit.value > 0 {
      var k := limit.value;
      assert rows[k - 1] in rows;
      forall e ensures e in page.rows <==> Due(c, parent, t, page.token, e) { PrefixByToken(rows, k, e); }
    }
  }

  // ----- What applying a page does to one name -----

  function RowName(c: Coll<Object>, parent: nat, e: Entry): string
    requires Relevant(c, parent, e)
  {
    if e.kind == Delete then c.tombs[e.document].name else c.rows[e.document].name
  }

  /** The last of the rows that speak of this name. */
  function LastWord(c: Coll<Object>, parent: nat, rows: seq<Entry>, name: string): Option<Entry>
    requires AllRelevant(c, parent, rows)
  {
    if rows == [] then None else
      var n := |rows| - 1;
      assert rows[n] in rows;
      if RowName(c, parent, rows[n]) == name then Some(rows[n]) else LastWord(c, parent, rows[..n], name)
  }

  /** After the page, a name is as its last word says, or as it was if no row speaks of it. */
  lemma {:induction false} ApplyRowsAt(client: Client, c: Coll<Object>, parent: nat, rows: seq<Entry>, name: string)
    requires AllRelevant(c, parent, rows)
    ensures var after, w := ApplyRows(client, c, parent, rows), LastWord(c, parent, rows, name);
            if w.None? then (name in after <==> name in client) && (name in client ==> after[name] == client[name])
            else if w.value.kind == Delete then name !in after
            else w.value.document in c.rows && name in after && after[name] == c.rows[w.value.document]
  {
    if rows != [] {
      var n := |rows| - 1;
      assert rows[n] in rows;
      ApplyRowsAt(client, c, parent, rows[..n], name);
    }
  }

  lemma {:induction false} LastWordFacts(c: Coll<Object>, parent: nat, rows: seq<Entry>, name: string)
    requires AllRelevant(c, parent, rows) && Ascends(rows)
    ensures var w := LastWord(c, parent, rows, name);
            && (w.Some? ==> w.value in rows && RowName(c, parent, w.value) == name)
            && (forall d | d in rows && RowName(c, parent, d) == name :: w.Some? && d.changeId <= w.value.changeId)
  {
    if rows != [] {
      var n := |rows| - 1;
      assert rows[n] in rows;
      LastWordFacts(c, parent, rows[..n], name);
      assert rows == rows[..n] + [rows[n]];
    }
  }

  // ----- A page keeps the client synced -----

  /** Facts about a document that has a last entry. */
  lemma LastEntryFacts(c: Coll<Object>, id: nat)
    requires CollInv(c) && (id in c.rows || id in c.tombs)
    ensures LastOf(c.log, id).Some?
    ensures var e := LastOf(c.log, id).value;
            && e in c.log && e.document == id && FirstOf(c.log, id).Some?
            && 1 <= Born(c, id) <= e.changeId <= c.lastChange
            && (id in c.rows <==> e.kind != Delete)
            && (id in c.tombs ==> e.changeId == c.tombs[id].changeId)
  {
    LastOfIn(c.log, id);
    EntryBetween(c.log, LastOf(c.log, id).value);
    FirstOfIn(c.log, id);
  }

  /** A document that bears the name and has changed since t is due, unless it came and went. */
  lemma BearerIsDue(c: Coll<Object>, parent: nat, name: string, t: nat, t': nat, id: nat)
    requires CollInv(c) && Bears(c, parent, name, id) && Untouched(c, parent, name, t')
    requires LastOf(c.log, id).Some? && LastOf(c.log, id).value.changeId > t
    requires id in c.rows || Born(c, id) <= t
    ensures var e := LastOf(c.log, id).value; Due(c, parent, t, t', e) && RowName(c, parent, e) == name
  {
    LastEntryFacts(c, id);
  }

  /** The rows of a page from t to t'. */
  ghost predicate IsPage(c: Coll<Object>, parent: nat, t: nat, t': nat, rows: seq<Entry>)
  {
    && t <= t' && Ascends(rows) && AllRelevant(c, parent, rows)
    && forall d :: d in rows <==> Due(c, parent, t, t', d)
  }

  /** If the last word on a name is a deletion, nobody bears the name now. */
  lemma DeletionIsFinal(c: Coll<Object>, parent: nat, name: string, t: nat, t': nat, rows: seq<Entry>)
    requires CollInv(c) && Untouched(c, parent, name, t') && IsPage(c, parent, t, t', rows)
    requires var w := LastWord(c, parent, rows, name); w.Some? && w.value.kind == Delete
    ensures ByName(c, parent, name).None?
  {
    LastWordFacts(c, parent, rows, name);
    var e := LastWord(c, parent, rows, name).value;
    forall id | id in c.rows ensures !Named(c.rows[id], parent, name) {
      if Named(c.rows[id], parent, name) {
        LastEntryFacts(c, id);
        LastEntryFacts(c, e.document);
        assert Born(c, id) > c.tombs[e.document].changeId;
        BearerIsDue(c, parent, name, t, t', id);
      }
    }
  }

  /** If no row speaks of a name that did change, then every change came and went: nobody bears it. */
  lemma SilenceMeansNobody(c: Coll<Object>, parent: nat, name: string, t: nat, t': nat, rows: seq<Entry>)
    requires CollInv(c) && Untouched(c, parent, name, t') && !Untouched(c, parent, name, t)
    requires IsPage(c, parent, t, t', rows) && LastWord(c, parent, rows, name).None?
    ensures ByName(c, parent, name).None?
    ensures forall id :: !Backs(c, parent, name, t, id)
  {
    LastWordFacts(c, parent, rows, name);
    var e :| e in c.log && e.changeId > t && Bears(c, parent, name, e.document);
    var gone := e.document;
    EntryBetween(c.log, e);
    LastEntryFacts(c, gone);
    if gone in c.rows || Born(c, gone) <= t { BearerIsDue(c, parent, name, t, t', gone); }
    assert gone in c.tombs && Born(c, gone) > t;
    forall id | id in c.rows ensures !Named(c.rows[id], parent, name) {
      if Named(c.rows[id], parent, name) {
        LastEntryFacts(c, id);
        assert Born(c, id) > c.tombs[gone].changeId;
        BearerIsDue(c, parent, name, t, t', id);
      }
    }
    forall id ensures !Backs(c, parent, name, t, id) {
      if Backs(c, parent, name, t, id) {
        LastEntryFacts(c, id);
        BearerIsDue(c, parent, name, t, t', id);
      }
    }
  }

  lemma PageAgrees(client: Client, c: Coll<Object>, parent: nat, t: nat, t': nat, rows: seq<Entry>, name: string)
    requires CollInv(c) && SyncedTo(client, c, parent, t)
    requires IsPage(c, parent, t, t', rows) && Untouched(c, parent, name, t')
    ensures AgreeAt(ApplyRows(client, c, parent, rows), c, parent, name)
  {
    ApplyRowsAt(client, c, parent, rows, name);
    var w := LastWord(c, parent, rows, name);
    if w.None? {
      if !Untouched(c, parent, name, t) { SilenceMeansNobody(c, parent, name, t, t', rows); }
    } else if w.value.kind == Delete {
      DeletionIsFinal(c, parent, name, t, t', rows);
    } else {
      LastWordFacts(c, parent, rows, name);
      ByNameUnique(c, parent, name, w.value.document);
    }
  }

  lemma StillBacked(c: Coll<Object>, parent: nat, name: string, t: nat, t': nat, rows: seq<Entry>, id: nat)
    requires CollInv(c) && IsPage(c, parent, t, t', rows) && Backs(c, parent, name, t, id)
    requires LastWord(c, parent, rows, name).None?
    ensures Backs(c, parent, name, t', id)
  {
    LastWordFacts(c, parent, rows, name);
    LastEntryFacts(c, id);
    var e := LastOf(c.log, id).value;
    assert id in c.tombs && e.changeId <= t' ==> Due(c, parent, t, t', e);
    assert id in c.tombs ==> Relevant(c, parent, e) && RowName(c, parent, e) == name;
  }

  lemma PageBacked(client: Client, c: Coll<Object>, parent: nat, t: nat, t': nat, rows: seq<Entry>, name: string)
    requires CollInv(c) && SyncedTo(client, c, parent, t) && IsPage(c, parent, t, t', rows)
    requires name in ApplyRows(client, c, parent, rows)
    ensures exists id :: Backs(c, parent, name, t', id)
  {
    ApplyRowsAt(client, c, parent, rows, name);
    var w := LastWord(c, parent, rows, name);
    if w.None? {
      var id :| Backs(c, parent, name, t, id);
      StillBacked(c, parent, name, t, t', rows, id);
    } else {
      LastWordFacts(c, parent, rows, name);
      LastEntryFacts(c, w.value.document);
      assert Backs(c, parent, name, t', w.value.document);
    }
  }

  /** A page, truncated or not, takes a client synced to t to one synced to the page's token. */
  lemma PageKeepsSync(client: Client, c: Coll<Object>, parent: nat, t: nat, limit: Option<nat>)
    requires CollInv(c) && SyncedTo(client, c, parent, t) && c.floor <= t
    ensures var page := Report(c, parent, t, limit);
            && AllRelevant(c, parent, page.rows)
            && SyncedTo(ApplyRows(client, c, parent, page.rows), c, parent, page.token)
  {
    var page := Report(c, parent, t, limit);
    PageIsExact(c, parent, t, limit);
    forall name | Untouched(c, parent, name, page.token)
      ensures AgreeAt(ApplyRows(client, c, parent, page.rows), c, parent, name)
    {
      PageAgrees(client, c, parent, t, page.token, page.rows, name);
    }
    forall name | name in ApplyRows(client, c, parent, page.rows)
      ensures exists id :: Backs(c, parent, name, page.token, id)
    {
      PageBacked(client, c, parent, t, page.token, page.rows, name);
    }
  }

  /** A client whose token has caught up with the log holds exactly the live collection. */
  lemma CaughtUpIsInSync(client: Client, c: Coll<Object>, parent: nat, t: nat)
    requires SyncedTo(client, c, parent, t) && forall e | e in c.log :: e.changeId <= t
    ensures InSync(client, c, parent)
  {
    forall name ensures AgreeAt(client, c, parent, name) {
      assert Untouched(c, parent, name, t);
    }
  }

  /** One unlimited report, or any page that was not cut short, leaves the client with the live set. */
  lemma FullPageIsInSync(client: Client, c: Coll<Object>, parent: nat, t: nat, limit: Option<nat>)
    requires CollInv(c) && SyncedTo(client, c, parent, t) && c.floor <= t && !Truncated(c, parent, t, limit)
    ensures var page := Report(c, parent, t, limit);
            && AllRelevant(c, parent, page.rows)
            && InSync(ApplyRows(client, c, parent, page.rows), c, parent)
  {
    var page := Report(c, parent, t, limit);
    PageKeepsSync(client, c, parent, t, limit);
    PageIsExact(c, parent, t, limit);
    CaughtUpIsInSync(ApplyRows(client, c, parent, page.rows), c, parent, page.token);
  }

  /** A cut page with room for at least one row moves the token forward, so paging comes to an end. */
  lemma PagingProgresses(c: Coll<Object>, parent: nat, t: nat, limit: Option<nat>)
    requires CollInv(c) && c.floor <= t <= c.lastChange && Truncated(c, parent, t, limit) && limit.value > 0
    ensures Report(c, parent, t, limit).token > t
  {
    var rows := AllRows(c, parent, t);
    assert rows[limit.value - 1] in rows;
    AllRowsAreDue(c, parent, t, rows[limit.value - 1]);
  }
}
