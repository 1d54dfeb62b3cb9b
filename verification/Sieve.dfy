/** Sieve scripts of an account: a stored list of JSON entries, older ones without an "active" field, and
    the operations that keep ids and names distinct and at most one script active. */
module Sieve {
  import opened Common

  /** JSON values, as far as the entries tell them apart. */
  datatype Json = Null | Bool(b: bool) | Text(s: string) | Other(code: nat)

  /** One stored entry; a missing field is None. */
  datatype Entry = Entry(id: Option<Json>, name: Option<Json>, source: Option<Json>,
                         rules: Option<Json>, active: Option<Json>)

  datatype Script = Script(id: string, name: string, source: string, rules: Option<Json>, active: bool)

  function AsText(v: Option<Json>): string
  {
    if v.Some? && v.value.Text? then v.value.s else ""
  }

  /** No entry says whether it is active. */
  predicate Legacy(entries: seq<Entry>)
  {
    forall i | 0 <= i < |entries| :: entries[i].active.None?
  }

  lemma LegacySnoc(head: seq<Entry>, e: Entry)
    ensures Legacy(head + [e]) <==> Legacy(head) && e.active.None?
  {
    var whole := head + [e];
    assert whole[|head|] == e && forall i | 0 <= i < |head| :: whole[i] == head[i];
  }

  function DecodeOne(e: Entry, legacyFirst: bool): Script
  {
    Script(AsText(e.id), AsText(e.name), AsText(e.source), e.rules,
           if e.active.Some? && e.active.value.Bool? then e.active.value.b else legacyFirst)
  }

  function Decode(entries: seq<Entry>): (r: seq<Script>)
    ensures |r| == |entries|
    ensures forall i | 0 <= i < |r| :: r[i] == DecodeOne(entries[i], Legacy(entries) && i == 0)
  {
    seq(|entries|, i requires 0 <= i < |entries| => DecodeOne(entries[i], Legacy(entries) && i == 0))
  }

  function EncodeOne(s: Script): Entry
  {
    Entry(Some(Text(s.id)), Some(Text(s.name)), Some(Text(s.source)), s.rules, Some(Bool(s.active)))
  }

  /** entries is the list written for these scripts. */
  predicate Encodes(scripts: seq<Script>, entries: seq<Entry>)
  {
    |entries| == |scripts| && forall i | 0 <= i < |scripts| :: entries[i] == EncodeOne(scripts[i])
  }

  /** Reading back what was written gives the scripts, active flags included. */
  lemma DecodeOfEncode(scripts: seq<Script>, entries: seq<Entry>)
    requires Encodes(scripts, entries)
    ensures Decode(entries) == scripts
  {
    forall i | 0 <= i < |scripts| ensures Decode(entries)[i] == scripts[i] {
      assert entries[i] == EncodeOne(scripts[i]);
    }
  }

  /** Each field is read from the field of its name: text as it is, anything else as an empty text. */
  lemma DecodeReads(entries: seq<Entry>, i: nat, text: string)
    requires i < |entries|
    ensures entries[i].id == Some(Text(text)) ==> Decode(entries)[i].id == text
    ensures entries[i].name == Some(Text(text)) ==> Decode(entries)[i].name == text
    ensures entries[i].source == Some(Text(text)) ==> Decode(entries)[i].source == text
    ensures (entries[i].id.None? || !entries[i].id.value.Text?) ==> Decode(entries)[i].id == ""
    ensures (entries[i].name.None? || !entries[i].name.value.Text?) ==> Decode(entries)[i].name == ""
    ensures (entries[i].source.None? || !entries[i].source.value.Text?) ==> Decode(entries)[i].source == ""
    ensures Decode(entries)[i].rules == entries[i].rules
    ensures entries[i].active.Some? && entries[i].active.value.Bool? ==>
              Decode(entries)[i].active == entries[i].active.value.b
    ensures !Legacy(entries) && (entries[i].active.None? || !entries[i].active.value.Bool?) ==>
              !Decode(entries)[i].active
  {
  }

  // ----- What every operation keeps -----

  predicate DistinctIds(scripts: seq<Script>)
  {
    forall i, j | 0 <= i < j < |scripts| :: scripts[i].id != scripts[j].id
  }

  predicate DistinctNames(scripts: seq<Script>)
  {
    forall i, j | 0 <= i < j < |scripts| :: scripts[i].name != scripts[j].name
  }

  predicate OneActive(scripts: seq<Script>)
  {
    forall i, j | 0 <= i < j < |scripts| :: !(scripts[i].active && scripts[j].active)
  }

  predicate Good(scripts: seq<Script>)
  {
    DistinctIds(scripts) && DistinctNames(scripts) && OneActive(scripts)
  }

  /** A list from before the flag existed reads with its first script active and no other. */
  lemma LegacyReadsOneActive(entries: seq<Entry>)
    requires Legacy(entries)
    ensures OneActive(Decode(entries)) && forall i | 0 <= i < |entries| :: Decode(entries)[i].active <==> i == 0
  {
    forall i | 0 <= i < |entries| ensures Decode(entries)[i].active <==> i == 0 {
      assert entries[i].active.None?;
    }
  }

  function Edited(s: Script, name: Option<string>, source: Option<string>, rules: Option<Option<Json>>): Script
  {
    Script(s.id, if name.Some? then name.value else s.name, if source.Some? then source.value else s.source,
           if rules.Some? then rules.value else s.rules, s.active)
  }

  /** Script i has what was given for it and is otherwise as it was, and so is every other script. */
  predicate Rewrites(before: seq<Script>, i: nat, after: seq<Script>, name: Option<string>, source: Option<string>,
                     rules: Option<Option<Json>>)
  {
    && i < |before| == |after| && (forall j | 0 <= j < |before| && j != i :: after[j] == before[j])
    && after[i].id == before[i].id && after[i].active == before[i].active
    && after[i].name == (if name.Some? then name.value else before[i].name)
    && after[i].source == (if source.Some? then source.value else before[i].source)
    && after[i].rules == if rules.Some? then rules.value else before[i].rules
  }

  function Without(scripts: seq<Script>, id: string): seq<Script>
  {
    if scripts == [] then [] else
      Without(scripts[..|scripts| - 1], id) + if scripts[|scripts| - 1].id == id then [] else [scripts[|scripts| - 1]]
  }

  lemma {:induction false} WithoutExact(scripts: seq<Script>, id: string, s: Script)
    ensures s in Without(scripts, id) <==> s in scripts && s.id != id
  {
    if scripts != [] {
      var n := |scripts| - 1;
      WithoutExact(scripts[..n], id, s);
      assert scripts == scripts[..n] + [scripts[n]];
    }
  }

  lemma {:induction false} WithoutKeeps(scripts: seq<Script>, id: string)
    requires Good(scripts)
    ensures Good(Without(scripts, id))
  {
    if scripts != [] {
      var n := |scripts| - 1;
      WithoutKeeps(scripts[..n], id);
      forall s | s in Without(scripts[..n], id) ensures s in scripts[..n] { WithoutExact(scripts[..n], id, s); }
      assert scripts == scripts[..n] + [scripts[n]];
      if scripts[n].id != id { GoodSnoc(Without(scripts[..n], id), scripts[n], scripts[..n]); }
    }
  }

  lemma GoodSnoc(part: seq<Script>, s: Script, whole: seq<Script>)
    requires Good(part) && Good(whole + [s]) && forall x | x in part :: x in whole
    ensures Good(part + [s])
  {
    forall i | 0 <= i < |part| ensures part[i].id != s.id && part[i].name != s.name && !(part[i].active && s.active) {
      assert part[i] in whole;
      var k :| 0 <= k < |whole| && whole[k] == part[i];
      assert (whole + [s])[k] == part[i] && (whole + [s])[|whole|] == s;
    }
  }

  lemma {:induction false} WithoutShorter(scripts: seq<Script>, id: string)
    ensures |Without(scripts, id)| <= |scripts|
  {
    if scripts != [] { WithoutShorter(scripts[..|scripts| - 1], id); }
  }

  lemma {:induction false} WithoutSame(scripts: seq<Script>, id: string)
    requires |Without(scripts, id)| == |scripts|
    ensures Without(scripts, id) == scripts
  {
    if scripts != [] {
      var n := |scripts| - 1;
      var head, last := scripts[..n], [scripts[n]];
      assert scripts == head + last;
      WithoutShorter(head, id);
      assert Without(scripts, id) == Without(head, id) + if scripts[n].id == id then [] else last;
      assert scripts[n].id != id && |Without(head, id)| == n;
      WithoutSame(head, id);
    }
  }

  lemma {:induction false} WithoutNone(scripts: seq<Script>, id: string)
    requires forall i | 0 <= i < |scripts| :: scripts[i].id != id
    ensures |Without(scripts, id)| == |scripts|
  {
    if scripts != [] { WithoutNone(scripts[..|scripts| - 1], id); }
  }

  lemma WithoutFound(scripts: seq<Script>, id: string)
    ensures |Without(scripts, id)| != |scripts| <==> exists s | s in scripts :: s.id == id
  {
    if |Without(scripts, id)| == |scripts| { WithoutSame(scripts, id); }
    if i :| 0 <= i < |scripts| && scripts[i].id == id {
      assert scripts[i] in scripts;
      WithoutExact(scripts, id, scripts[i]);
    } else {
      WithoutNone(scripts, id);
    }
  }

  lemma EditKeeps(scripts: seq<Script>, i: nat, name: Option<string>, source: Option<string>,
                  rules: Option<Option<Json>>)
    requires Good(scripts) && i < |scripts|
    requires name.Some? ==> forall j | 0 <= j < |scripts| && j != i :: scripts[j].name != name.value
    ensures Good(scripts[i := Edited(scripts[i], name, source, rules)])
  {
  }

  function Activated(scripts: seq<Script>, id: Option<string>): (r: seq<Script>)
    ensures |r| == |scripts|
    ensures forall i | 0 <= i < |r| :: r[i] == scripts[i].(active := id == Some(scripts[i].id))
  {
    seq(|scripts|, i requires 0 <= i < |scripts| => scripts[i].(active := id == Some(scripts[i].id)))
  }

  lemma ActivatedKeeps(scripts: seq<Script>, id: Option<string>)
    requires DistinctIds(scripts) && DistinctNames(scripts)
    ensures Good(Activated(scripts, id))
  {
    var r := Activated(scripts, id);
    forall i, j | 0 <= i < j < |r|
      ensures r[i].id != r[j].id && r[i].name != r[j].name && !(r[i].active && r[j].active) {
      assert scripts[i].id != scripts[j].id && scripts[i].name != scripts[j].name;
    }
  }

  // ----- The registry -----

  class SieveScriptRegistry {
    var records: map<nat, seq<Entry>>

    ghost function ListOf(account: nat): seq<Script>
      reads this
    {
      if account in records then Decode(records[account]) else []
    }

    /** Every account's list keeps the rules; a store from before the flag may start out this way. */
    ghost predicate Valid()
      reads this
    {
      forall account :: Good(ListOf(account))
    }

    twostate predicate OthersSame(account: nat)
      reads this
    {
      forall a | a != account :: ListOf(a) == old(ListOf(a))
    }

    constructor ()
      ensures Valid() && records == map[]
    {
      records := map[];
    }

    method List(account: nat) returns (scripts: seq<Script>)
      ensures scripts == ListOf(account)
    {
      if account !in records { return []; }
      var entries := records[account];
      var legacy := true;
      for i := 0 to |entries|
        invariant legacy <==> Legacy(entries[..i])
      {
        assert entries[..i + 1] == entries[..i] + [entries[i]];
        LegacySnoc(entries[..i], entries[i]);
        if entries[i].active.Some? { legacy := false; }
      }
      assert entries[..|entries|] == entries;
      scripts := [];
      for i := 0 to |entries|
        invariant scripts == Decode(entries)[..i]
      {
        scripts := scripts + [DecodeOne(entries[i], legacy && i == 0)];
      }
    }

    method Write(account: nat, scripts: seq<Script>)
      requires Valid() && Good(scripts)
      modifies this
      ensures Valid() && ListOf(account) == scripts && OthersSame(account)
    {
      if scripts == [] {
        records := records - {account};
      } else {
        var entries: seq<Entry> := [];
        for i := 0 to |scripts|
          invariant |entries| == i && forall k | 0 <= k < i :: entries[k] == EncodeOne(scripts[k])
        {
          entries := entries + [EncodeOne(scripts[i])];
        }
        DecodeOfEncode(scripts, entries);
        records := records[account := entries];
      }
      assert forall a | a != account :: ListOf(a) == old(ListOf(a)) && Good(old(ListOf(a)));
    }

    method ActiveScript(account: nat) returns (r: Option<Script>)
      requires Valid()
      ensures r.None? <==> forall s | s in ListOf(account) :: !s.active
      ensures r.Some? ==> r.value in ListOf(account) && r.value.active
                          && forall s | s in ListOf(account) && s.active :: s == r.value
    {
      var scripts := List(account);
      for i := 0 to |scripts|
        invariant forall k | 0 <= k < i :: !scripts[k].active
      {
        if scripts[i].active {
          assert OneActive(scripts);
          return Some(scripts[i]);
        }
      }
      r := None;
    }

    /** id is the generator's next, one no script of the list bears. */
    method Create(account: nat, id: string, name: string, source: string, rules: Option<Json>)
      returns (r: Result<Script>)
      requires Valid() && forall s | s in ListOf(account) :: s.id != id
      modifies this
      ensures Valid() && OthersSame(account)
      ensures r.Err? <==> exists s | s in old(ListOf(account)) :: s.name == name
      ensures r.Err? ==> r == Err(InvalidInput) && ListOf(account) == old(ListOf(account))
      ensures r.Ok? ==>
                && r.value == Script(id, name, source, rules, old(ListOf(account)) == [])
                && ListOf(account) == old(ListOf(account)) + [r.value]
    {
      var scripts := List(account);
      for i := 0 to |scripts|
        invariant forall k | 0 <= k < i :: scripts[k].name != name
      {
        if scripts[i].name == name { return Err(InvalidInput); }
      }
      var script := Script(id, name, source, rules, |scripts| == 0);
      assert forall k | 0 <= k < |scripts| :: scripts[k] in scripts;
      Write(account, scripts + [script]);
      r := Ok(script);
    }

    method Update(account: nat, id: string, name: Option<string>, source: Option<string>, rules: Option<Option<Json>>)
      returns (r: Result<bool>)
      requires Valid()
      modifies this
      ensures Valid() && OthersSame(account)
      ensures r.Err? <==> name.Some? && exists s | s in old(ListOf(account)) :: s.name == name.value && s.id != id
      ensures r.Err? ==> r == Err(InvalidInput)
      ensures r == Ok(false) ==> forall s | s in old(ListOf(account)) :: s.id != id
      ensures r != Ok(true) ==> ListOf(account) == old(ListOf(account))
      ensures r == Ok(true) ==>
                exists i | 0 <= i < |old(ListOf(account))| ::
                  && old(ListOf(account))[i].id == id
                  && Rewrites(old(ListOf(account)), i, ListOf(account), name, source, rules)
    {
      var scripts := List(account);
      if name.Some? {
        for i := 0 to |scripts|
          invariant forall k | 0 <= k < i :: scripts[k].name == name.value ==> scripts[k].id == id
        {
          if scripts[i].name == name.value && scripts[i].id != id { return Err(InvalidInput); }
        }
      }
      for i := 0 to |scripts|
        invariant forall k | 0 <= k < i :: scripts[k].id != id
      {
        if scripts[i].id == id {
          assert DistinctIds(scripts);
          EditKeeps(scripts, i, name, source, rules);
          Write(account, scripts[i := Edited(scripts[i], name, source, rules)]);
          assert Rewrites(scripts, i, ListOf(account), name, source, rules);
          return Ok(true);
        }
      }
      r := Ok(false);
    }

    /** Makes one script active, or none; an unknown id changes nothing. */
    method SetActive(account: nat, id: Option<string>) returns (found: bool)
      requires Valid()
      modifies this
      ensures Valid() && OthersSame(account)
      ensures found <==> id.None? || exists s | s in old(ListOf(account)) :: s.id == id.value
      ensures ListOf(account) == if found then Activated(old(ListOf(account)), id) else old(ListOf(account))
    {
      var scripts := List(account);
      if id.Some? {
        found := false;
        for i := 0 to |scripts|
          invariant found <==> exists k | 0 <= k < i :: scripts[k].id == id.value
        {
          if scripts[i].id == id.value { found := true; }
        }
        if !found { return; }
      }
      found := true;
      var next: seq<Script> := [];
      for i := 0 to |scripts|
        invariant next == Activated(scripts, id)[..i]
      {
        next := next + [scripts[i].(active := id == Some(scripts[i].id))];
      }
      ActivatedKeeps(scripts, id);
      Write(account, next);
    }

    method Destroy(account: nat, id: string) returns (found: bool)
      requires Valid()
      modifies this
      ensures Valid() && OthersSame(account)
      ensures found <==> exists s | s in old(ListOf(account)) :: s.id == id
      ensures ListOf(account) == Without(old(ListOf(account)), id)
      ensures forall s :: s in ListOf(account) <==> s in old(ListOf(account)) && s.id != id
    {
      var scripts := List(account);
      if |Without(scripts, id)| == |scripts| { WithoutSame(scripts, id); }
      WithoutFound(scripts, id);
      WithoutKeeps(scripts, id);
      forall s { WithoutExact(scripts, id, s); }
      found := |Without(scripts, id)| != |scripts|;
      if found { Write(account, Without(scripts, id)); }
    }
  }
}
