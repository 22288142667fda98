/**
 * The IndexedDB object store behind the `idb-keyval` helpers the IndexedDB
 * adapter calls (`get`, `set`, `del`, `keys`). Transactions and opening the
 * database are not modelled: each helper acts on the table at once.
 */
module IdbKeyval {
  import opened Wrappers
  import opened Json

  /** An IndexedDB key: a string, or a key of another type (number, date, array, binary). */
  datatype Key = StrKey(s: string) | OtherKey(id: int)

  /** A stored record; `Unreadable` is a record whose read rejects. */
  datatype Record = Stored(v: Value) | Unreadable

  /** `ks` lists every key of `table` exactly once. */
  ghost predicate Enumerates(ks: seq<Key>, table: map<Key, Record>)
  {
    && (forall i, j :: 0 <= i < j < |ks| ==> ks[i] != ks[j])
    && (forall k :: k in ks <==> k in table)
  }

  /** What `get` resolves to: an absent key reads as `undefined`; `None` is a rejected read. */
  function RawGet(table: map<Key, Record>, k: Key): (r: Option<Value>)
    ensures r.None? <==> k in table && table[k].Unreadable?
    ensures r.Some? && r.value != Undefined ==> k in table && table[k] == Stored(r.value)
  {
    if k !in table then Some(Undefined)
    else match table[k]
      case Stored(v) => Some(v)
      case Unreadable => None
  }

  class Store {
    var table: map<Key, Record>

    constructor (initial: map<Key, Record>)
      ensures table == initial
    {
      table := initial;
    }

    /** `get(key, store)` */
    function Get(k: Key): Option<Value>
      reads this
    {
      RawGet(table, k)
    }

    /** `set(key, value, store)` */
    method Set(k: Key, v: Value)
      modifies this
      ensures table == old(table)[k := Stored(v)]
    {
      table := table[k := Stored(v)];
    }

    /** `del(key, store)`: deleting an absent key is not an error. */
    method Del(k: Key)
      modifies this
      ensures table == old(table) - {k}
    {
      table := table - {k};
    }

    /** `keys(store)`: a snapshot of every key, in an order the store chooses. */
    method Keys() returns (ks: seq<Key>)
      ensures Enumerates(ks, table)
    {
      ks := [];
      var rest := table.Keys;
      while rest != {}
        invariant rest <= table.Keys
        invariant forall i, j :: 0 <= i < j < |ks| ==> ks[i] != ks[j]
        invariant forall k :: k in ks <==> k in table && k !in rest
        decreases rest
      {
        var k :| k in rest;
        ks := ks + [k];
        rest := rest - {k};
      }
    }
  }
}
