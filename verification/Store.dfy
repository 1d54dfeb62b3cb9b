/** The key-value store: an ordered byte map with atomic batches and ascending prefix scans. */
module Store {
  import opened Common
  import opened Bytes

  datatype WriteOp<V> = Set(key: seq<byte>, value: V) | Delete(key: seq<byte>)

  function Write<V>(m: map<seq<byte>, V>, op: WriteOp<V>): map<seq<byte>, V>
  {
    match op
    case Set(k, v) => m[k := v]
    case Delete(k) => m - {k}
  }

  function WriteAll<V>(m: map<seq<byte>, V>, ops: seq<WriteOp<V>>): map<seq<byte>, V>
  {
    if ops == [] then m else Write(WriteAll(m, ops[..|ops| - 1]), ops[|ops| - 1])
  }

  function KeysUnder<V>(m: map<seq<byte>, V>, prefix: seq<byte>): set<seq<byte>>
  {
    set k | k in m && prefix <= k
  }

  class Store<V> {
    var data: map<seq<byte>, V>

    constructor ()
      ensures data == map[]
    {
      data := map[];
    }

    method Get(key: seq<byte>) returns (r: Option<V>)
      ensures r == if key in data then Some(data[key]) else None
    {
      if key in data { r := Some(data[key]); } else { r := None; }
    }

    method Batch(ops: seq<WriteOp<V>>)
      modifies this
      ensures data == WriteAll(old(data), ops)
    {
      var next := data;
      for i := 0 to |ops|
        invariant next == WriteAll(data, ops[..i])
      {
        assert ops[..i + 1][..i] == ops[..i];
        next := Write(next, ops[i]);
      }
      assert ops[..|ops|] == ops;
      data := next;
    }

    /** The rows under a prefix, in ascending key order. */
    method Iterate(prefix: seq<byte>) returns (rows: seq<(seq<byte>, V)>)
      ensures |rows| == |SortedKeys(KeysUnder(data, prefix))|
      ensures forall i | 0 <= i < |rows| ::
                rows[i].0 == SortedKeys(KeysUnder(data, prefix))[i] && rows[i].0 in data && rows[i].1 == data[rows[i].0]
    {
      var keys := SortedKeys(KeysUnder(data, prefix));
      rows := [];
      for i := 0 to |keys|
        invariant |rows| == i
        invariant forall j | 0 <= j < i :: rows[j].0 == keys[j] && rows[j].0 in data && rows[j].1 == data[rows[j].0]
      {
        assert keys[i] in keys;
        rows := rows + [(keys[i], data[keys[i]])];
      }
    }
  }
}
