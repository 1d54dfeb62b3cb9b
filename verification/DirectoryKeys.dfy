/** The tagged byte keys of the directory: injective, pairwise disjoint, and ordered so that a scan
    meets records by ascending id. One byte map therefore stands for the five typed tables, and a
    batch of writes on the one is the batch of row operations on the other. */
module DirectoryKeys {
  import opened Common
  import opened Bytes
  import opened Utf8
  import opened Store
  import opened DirectoryTables

  /** What a value decodes to; the JSON form is not modelled. */
  datatype Value =
    | DomainValue(domain: Domain)
    | IdValue(id: u64)
    | AccountValue(account: Account)
    | EntryValue(entry: AddressEntry)
    | OtherValue(bytes: seq<byte>)

  const REGISTRY: byte := 0x72
  const TAG_DOMAIN_RECORD: byte := 0x10
  const TAG_DOMAIN_NAME: byte := 0x11
  const TAG_ACCOUNT_RECORD: byte := 0x20
  const TAG_ACCOUNT_ADDRESS: byte := 0x21
  const TAG_ADDRESS_ENTRY: byte := 0x30

  function DomainKey(id: u64): seq<byte> { [REGISTRY, TAG_DOMAIN_RECORD] + BigEndian(id, 8) }
  function NameKey(name: string): seq<byte> { [REGISTRY, TAG_DOMAIN_NAME] + Encode(name) }
  function AccountKey(id: u64): seq<byte> { [REGISTRY, TAG_ACCOUNT_RECORD] + BigEndian(id, 8) }
  function LocalKey(domain: u64, local: string): seq<byte>
  {
    [REGISTRY, TAG_ACCOUNT_ADDRESS] + BigEndian(domain, 8) + Encode(local)
  }
  function EntryKey(address: string): seq<byte> { [REGISTRY, TAG_ADDRESS_ENTRY] + Encode(address) }

  function Encoded(op: Op): WriteOp<Value>
  {
    match op
    case PutDomain(d) => Set(DomainKey(d.id), DomainValue(d))
    case DropDomain(id) => Delete(DomainKey(id))
    case PutName(n, id) => Set(NameKey(n), IdValue(id))
    case DropName(n) => Delete(NameKey(n))
    case PutAccount(a) => Set(AccountKey(a.id), AccountValue(a))
    case DropAccount(id) => Delete(AccountKey(id))
    case PutLocal(d, l, id) => Set(LocalKey(d, l), IdValue(id))
    case DropLocal(d, l) => Delete(LocalKey(d, l))
    case PutEntry(a, id) => Set(EntryKey(a), EntryValue(AccountEntry(a, id)))
    case DropEntry(a) => Delete(EntryKey(a))
  }

  function EncodeOps(ops: seq<Op>): (r: seq<WriteOp<Value>>)
    ensures |r| == |ops|
    ensures forall i | 0 <= i < |ops| :: r[i] == Encoded(ops[i])
  {
    seq(|ops|, i requires 0 <= i < |ops| => Encoded(ops[i]))
  }

  // ----- Injectivity -----

  /** The key of a row names its table and its index: no two rows share a key. */
  datatype Row = DomainRow(id: u64) | NameRow(name: string) | AccountRow(id: u64)
               | LocalRow(domain: u64, local: string) | EntryRow(address: string)

  function RowKey(r: Row): seq<byte>
  {
    match r
    case DomainRow(id) => DomainKey(id)
    case NameRow(n) => NameKey(n)
    case AccountRow(id) => AccountKey(id)
    case LocalRow(d, l) => LocalKey(d, l)
    case EntryRow(a) => EntryKey(a)
  }

  lemma Be8Injective(x: u64, y: u64)
    requires BigEndian(x, 8) == BigEndian(y, 8)
    ensures x == y
  {
    Pow256Of8();
    BigEndianInjective(x, y, 8);
  }

  lemma RowKeysInjective(r: Row, s: Row)
    requires RowKey(r) == RowKey(s)
    ensures r == s
  {
    var k, k' := RowKey(r), RowKey(s);
    assert k[1] == k'[1];
    match r
    case DomainRow(id) =>
      assert k[2..] == BigEndian(id, 8) && k'[2..] == BigEndian(s.id, 8);
      Be8Injective(id, s.id);
    case AccountRow(id) =>
      assert k[2..] == BigEndian(id, 8) && k'[2..] == BigEndian(s.id, 8);
      Be8Injective(id, s.id);
    case NameRow(n) =>
      assert k[2..] == Encode(n) && k'[2..] == Encode(s.name);
      EncodeInjective(n, s.name);
    case EntryRow(a) =>
      assert k[2..] == Encode(a) && k'[2..] == Encode(s.address);
      EncodeInjective(a, s.address);
    case LocalRow(d, l) =>
      assert k[2..10] == BigEndian(d, 8) && k'[2..10] == BigEndian(s.domain, 8);
      assert k[10..] == Encode(l) && k'[10..] == Encode(s.local);
      Be8Injective(d, s.domain);
      EncodeInjective(l, s.local);
  }

  /** The bytes of each key: the subspace, the table, and the index, which can be read back. */
  lemma KeysReadBack(id: u64, text: string)
    ensures DomainKey(id)[..2] == [0x72, 0x10] && FromBigEndian(DomainKey(id)[2..]) == id && |DomainKey(id)| == 10
    ensures AccountKey(id)[..2] == [0x72, 0x20] && FromBigEndian(AccountKey(id)[2..]) == id && |AccountKey(id)| == 10
    ensures NameKey(text)[..2] == [0x72, 0x11] && DecodeLossy(NameKey(text)[2..]) == text
    ensures EntryKey(text)[..2] == [0x72, 0x30] && DecodeLossy(EntryKey(text)[2..]) == text
    ensures LocalKey(id, text)[..2] == [0x72, 0x21] && FromBigEndian(LocalKey(id, text)[2..10]) == id
    ensures DecodeLossy(LocalKey(id, text)[10..]) == text
  {
    Pow256Of8();
    BigEndianRoundTrip(id, 8);
    DecodeOfEncode(text);
    assert DomainKey(id)[2..] == AccountKey(id)[2..] == LocalKey(id, text)[2..10] == BigEndian(id, 8);
    assert NameKey(text)[2..] == EntryKey(text)[2..] == LocalKey(id, text)[10..] == Encode(text);
  }

  // ----- The byte map stands for the tables -----

  function Cell(t: Tables, r: Row): Option<Value>
  {
    match r
    case DomainRow(id) => if id in t.domains then Some(DomainValue(t.domains[id])) else None
    case NameRow(n) => if n in t.names then Some(IdValue(t.names[n])) else None
    case AccountRow(id) => if id in t.accounts then Some(AccountValue(t.accounts[id])) else None
    case LocalRow(d, l) => if (d, l) in t.locals then Some(IdValue(t.locals[(d, l)])) else None
    case EntryRow(a) => if a in t.entries then Some(EntryValue(t.entries[a])) else None
  }

  function Find(m: map<seq<byte>, Value>, k: seq<byte>): Option<Value>
  {
    if k in m then Some(m[k]) else None
  }

  ghost predicate Represents(m: map<seq<byte>, Value>, t: Tables)
  {
    forall r :: Find(m, RowKey(r)) == Cell(t, r)
  }

  lemma RepresentsUnique(m: map<seq<byte>, Value>, t: Tables, u: Tables)
    requires Represents(m, t) && Represents(m, u)
    ensures t == u
  {
    forall r ensures Cell(t, r) == Cell(u, r) { assert Find(m, RowKey(r)) == Cell(t, r); }
    assert t.domains == u.domains by {
      forall id: u64 ensures id in t.domains <==> id in u.domains
        ensures id in t.domains && id in u.domains ==> t.domains[id] == u.domains[id]
      { assert Cell(t, DomainRow(id)) == Cell(u, DomainRow(id)); }
    }
    assert t.names == u.names by {
      forall n: string ensures n in t.names <==> n in u.names
        ensures n in t.names && n in u.names ==> t.names[n] == u.names[n]
      { assert Cell(t, NameRow(n)) == Cell(u, NameRow(n)); }
    }
    assert t.accounts == u.accounts by {
      forall id: u64 ensures id in t.accounts <==> id in u.accounts
        ensures id in t.accounts && id in u.accounts ==> t.accounts[id] == u.accounts[id]
      { assert Cell(t, AccountRow(id)) == Cell(u, AccountRow(id)); }
    }
    assert t.locals == u.locals by {
      forall s: (u64, string) ensures s in t.locals <==> s in u.locals
        ensures s in t.locals && s in u.locals ==> t.locals[s] == u.locals[s]
      { assert Cell(t, LocalRow(s.0, s.1)) == Cell(u, LocalRow(s.0, s.1)); }
    }
    assert t.entries == u.entries by {
      forall a: string ensures a in t.entries <==> a in u.entries
        ensures a in t.entries && a in u.entries ==> t.entries[a] == u.entries[a]
      { assert Cell(t, EntryRow(a)) == Cell(u, EntryRow(a)); }
    }
  }

  function OpRow(op: Op): Row
  {
    match op
    case PutDomain(d) => DomainRow(d.id)
    case DropDomain(id) => DomainRow(id)
    case PutName(n, _) => NameRow(n)
    case DropName(n) => NameRow(n)
    case PutAccount(a) => AccountRow(a.id)
    case DropAccount(id) => AccountRow(id)
    case PutLocal(d, l, _) => LocalRow(d, l)
    case DropLocal(d, l) => LocalRow(d, l)
    case PutEntry(a, _) => EntryRow(a)
    case DropEntry(a) => EntryRow(a)
  }

  lemma ApplyTouchesOneRow(t: Tables, op: Op, r: Row)
    ensures r != OpRow(op) ==> Cell(Apply(t, op), r) == Cell(t, r)
    ensures Cell(Apply(t, op), OpRow(op)) == if Encoded(op).Set? then Some(Encoded(op).value) else None
  {
  }

  /** One write on the byte map is one row operation on the tables. */
  lemma WriteRefines(m: map<seq<byte>, Value>, t: Tables, op: Op)
    requires Represents(m, t)
    ensures Represents(Write(m, Encoded(op)), Apply(t, op))
  {
    forall r ensures Find(Write(m, Encoded(op)), RowKey(r)) == Cell(Apply(t, op), r) {
      assert Find(m, RowKey(r)) == Cell(t, r);
      assert Encoded(op).key == RowKey(OpRow(op));
      ApplyTouchesOneRow(t, op, r);
      if RowKey(r) == RowKey(OpRow(op)) { RowKeysInjective(r, OpRow(op)); }
    }
  }

  /** A batch on the byte map is the batch of row operations on the tables. */
  lemma {:induction false} BatchRefines(m: map<seq<byte>, Value>, t: Tables, ops: seq<Op>)
    requires Represents(m, t)
    ensures Represents(WriteAll(m, EncodeOps(ops)), ApplyAll(t, ops))
  {
    if ops != [] {
      var n := |ops| - 1;
      BatchRefines(m, t, ops[..n]);
      assert EncodeOps(ops)[..n] == EncodeOps(ops[..n]);
      WriteRefines(WriteAll(m, EncodeOps(ops[..n])), ApplyAll(t, ops[..n]), ops[n]);
    }
  }

  /** Keys outside the five tables, which callers may fold into an account's creation batch. */
  ghost predicate Foreign(k: seq<byte>)
  {
    forall r :: RowKey(r) != k
  }

  lemma {:induction false} ForeignBatchKeeps(m: map<seq<byte>, Value>, t: Tables, ops: seq<WriteOp<Value>>)
    requires Represents(m, t) && forall op | op in ops :: Foreign(op.key)
    ensures Represents(WriteAll(m, ops), t)
  {
    if ops != [] {
      var n := |ops| - 1;
      ForeignBatchKeeps(m, t, ops[..n]);
      var m' := WriteAll(m, ops[..n]);
      assert ops[n] in ops;
      forall r ensures Find(Write(m', ops[n]), RowKey(r)) == Cell(t, r) {
        assert Find(m', RowKey(r)) == Cell(t, r);
      }
    }
  }

  lemma {:induction false} WriteAllConcat<V>(m: map<seq<byte>, V>, a: seq<WriteOp<V>>, b: seq<WriteOp<V>>)
    ensures WriteAll(m, a + b) == WriteAll(WriteAll(m, a), b)
  {
    if b == [] {
      assert a + b == a;
    } else {
      assert (a + b)[..|a + b| - 1] == a + b[..|b| - 1];
      WriteAllConcat(m, a, b[..|b| - 1]);
    }
  }

  // ----- Scans -----

  function KeyId(k: seq<byte>): (id: u64)
    requires |k| == 10
  {
    Pow256Of8();
    FromBigEndianRoundTrip(k[2..]);
    FromBigEndian(k[2..])
  }

  function RecordKey(tag: byte, id: u64): seq<byte>
  {
    [REGISTRY, tag] + BigEndian(id, 8)
  }

  predicate IsRecordKey(tag: byte, k: seq<byte>)
  {
    |k| == 10 && k[0] == REGISTRY && k[1] == tag
  }

  lemma ScanOrder(tag: byte, x: u64, y: u64)
    ensures Less(RecordKey(tag, x), RecordKey(tag, y)) <==> x < y
  {
    Pow256Of8();
    BigEndianOrder(x, y, 8);
    LessPrepend([REGISTRY, tag], BigEndian(x, 8), BigEndian(y, 8));
  }

  lemma KeyIdOfRecordKey(tag: byte, k: seq<byte>, id: u64)
    ensures IsRecordKey(tag, k) && KeyId(k) == id <==> k == RecordKey(tag, id)
  {
    Pow256Of8();
    BigEndianRoundTrip(id, 8);
    if k == RecordKey(tag, id) {
      assert k[2..] == BigEndian(id, 8);
    }
    if IsRecordKey(tag, k) {
      FromBigEndianRoundTrip(k[2..]);
      assert k == k[..2] + k[2..];
    }
  }

  /** The ids of the records of one kind that a scan meets, in the order it meets them. */
  function IdsIn(tag: byte, keys: seq<seq<byte>>): (ids: seq<u64>)
  {
    if keys == [] then [] else
      var n := |keys| - 1;
      IdsIn(tag, keys[..n]) + if IsRecordKey(tag, keys[n]) then [KeyId(keys[n])] else []
  }

  lemma IdsInSnoc(tag: byte, keys: seq<seq<byte>>, k: seq<byte>)
    ensures IdsIn(tag, keys + [k]) == if IsRecordKey(tag, k) then IdsIn(tag, keys) + [KeyId(k)] else IdsIn(tag, keys)
  {
    assert (keys + [k])[..|keys|] == keys;
  }

  lemma {:induction false} IdsInExact(tag: byte, keys: seq<seq<byte>>, id: u64)
    ensures id in IdsIn(tag, keys) <==> RecordKey(tag, id) in keys
  {
    if keys != [] {
      var n := |keys| - 1;
      IdsInExact(tag, keys[..n], id);
      KeyIdOfRecordKey(tag, keys[n], id);
      assert keys == keys[..n] + [keys[n]];
    }
  }

  predicate AscendingIds(ids: seq<u64>)
  {
    forall i, j | 0 <= i < j < |ids| :: ids[i] < ids[j]
  }

  /** A scan lists the live records of one kind, each once, in ascending numeric order of id. */
  lemma {:induction false} IdsInAscending(tag: byte, keys: seq<seq<byte>>)
    requires Ascending(keys)
    ensures AscendingIds(IdsIn(tag, keys))
  {
    if keys != [] {
      var n := |keys| - 1;
      IdsInAscending(tag, keys[..n]);
      assert keys == keys[..n] + [keys[n]];
      IdsInSnoc(tag, keys[..n], keys[n]);
      if IsRecordKey(tag, keys[n]) {
        var y := KeyId(keys[n]);
        KeyIdOfRecordKey(tag, keys[n], y);
        var head := IdsIn(tag, keys[..n]);
        forall j | 0 <= j < |head| ensures head[j] < y {
          IdsInExact(tag, keys[..n], head[j]);
          var i :| 0 <= i < n && keys[i] == RecordKey(tag, head[j]);
          ScanOrder(tag, head[j], y);
        }
      }
    }
  }
}
