/**
 * `KeyvIndexedDB`: the key-value adapter over an IndexedDB object store.
 * Values are stored as they are (no JSON text), under string keys
 * `namespace + key`; the store may also hold keys of other types.
 */
module IndexedDBAdapter {
  import opened Wrappers
  import opened Json
  import opened Namespacing
  import opened IdbKeyval

  /** `clear` and `iterator` only touch string keys that start with the filter. */
  predicate InNamespace(k: Key, filter: string)
  {
    k.StrKey? && (filter == "" || StartsWith(k.s, filter))
  }

  /**
   * `iterator(filter)` over the key snapshot `snapshot`: in snapshot order,
   * each string key in the namespace with the value read raw from the store.
   * A read that rejects ends the iteration with an error (`.1` is true) after
   * the entries already yielded.
   */
  function Scan(snapshot: seq<Key>, table: map<Key, Record>, filter: string): (seq<(string, Value)>, bool)
    decreases |snapshot|
  {
    if snapshot == [] then ([], false)
    else
      var k := snapshot[0];
      if !InNamespace(k, filter) then Scan(snapshot[1..], table, filter)
      else match RawGet(table, k)
        case None => ([], true)
        case Some(v) =>
          var rest := Scan(snapshot[1..], table, filter);
          ([(k.s, v)] + rest.0, rest.1)
  }

  /** Every yielded entry is a string key of the snapshot in the namespace, with its raw stored value. */
  lemma {:induction false} ScanSound(snapshot: seq<Key>, table: map<Key, Record>, filter: string)
    ensures forall e :: e in Scan(snapshot, table, filter).0 ==>
      StrKey(e.0) in snapshot && InNamespace(StrKey(e.0), filter) && RawGet(table, StrKey(e.0)) == Some(e.1)
    decreases |snapshot|
  {
    if snapshot != [] {
      ScanSound(snapshot[1..], table, filter);
    }
  }

  /** Without an error, every string key of the snapshot in the namespace is yielded with its value. */
  lemma {:induction false} ScanComplete(snapshot: seq<Key>, table: map<Key, Record>, filter: string)
    ensures !Scan(snapshot, table, filter).1 ==>
      forall i :: 0 <= i < |snapshot| && InNamespace(snapshot[i], filter) ==>
        RawGet(table, snapshot[i]).Some? &&
        (snapshot[i].s, RawGet(table, snapshot[i]).value) in Scan(snapshot, table, filter).0
    decreases |snapshot|
  {
    if snapshot != [] {
      ScanComplete(snapshot[1..], table, filter);
      assert forall i :: 1 <= i < |snapshot| ==> snapshot[i] == snapshot[1..][i - 1];
    }
  }

  /** The iteration fails exactly when the snapshot holds an unreadable key of the namespace. */
  lemma {:induction false} ScanFailsIff(snapshot: seq<Key>, table: map<Key, Record>, filter: string)
    ensures Scan(snapshot, table, filter).1 <==>
      exists i :: 0 <= i < |snapshot| && InNamespace(snapshot[i], filter) && RawGet(table, snapshot[i]).None?
    decreases |snapshot|
  {
    if snapshot != [] {
      ScanFailsIff(snapshot[1..], table, filter);
      assert forall i :: 1 <= i < |snapshot| ==> snapshot[i] == snapshot[1..][i - 1];
      if exists i :: 1 <= i < |snapshot| && InNamespace(snapshot[i], filter) && RawGet(table, snapshot[i]).None? {
        var i :| 1 <= i < |snapshot| && InNamespace(snapshot[i], filter) && RawGet(table, snapshot[i]).None?;
        assert snapshot[1..][i - 1] == snapshot[i];
      }
    }
  }

  /**
   * Over a snapshot that lists every key of the table once, the scan is
   * stated on the table itself: what it yields is stored there, it fails
   * exactly when a key of the namespace is unreadable, and otherwise it
   * yields every key of the namespace.
   */
  lemma ScanOverTable(snapshot: seq<Key>, table: map<Key, Record>, filter: string)
    requires Enumerates(snapshot, table)
    ensures forall e :: e in Scan(snapshot, table, filter).0 ==>
      InNamespace(StrKey(e.0), filter) && RawGet(table, StrKey(e.0)) == Some(e.1)
    ensures Scan(snapshot, table, filter).1 <==>
      exists k :: k in table && InNamespace(k, filter) && table[k].Unreadable?
    ensures !Scan(snapshot, table, filter).1 ==>
      forall k :: k in table && InNamespace(k, filter) ==>
        RawGet(table, k).Some? && (k.s, RawGet(table, k).value) in Scan(snapshot, table, filter).0
  {
    ScanSound(snapshot, table, filter);
    ScanFailsIff(snapshot, table, filter);
    ScanComplete(snapshot, table, filter);
    forall k | k in table
      ensures exists i :: 0 <= i < |snapshot| && snapshot[i] == k
    {
      assert k in snapshot;
    }
  }

  class KeyvIndexedDB {
    const ttlSupport: bool
    var namespace: string
    const store: Store

    /** The `namespace` option is not read: the namespace starts empty. */
    constructor (optNamespace: Option<string>, store: Store)
      ensures namespace == "" && this.store == store && !ttlSupport
    {
      ttlSupport := false;
      namespace := "";
      this.store := store;
    }

    /** `_getKey`: stripping the namespace again gives the key back. */
    function GetKey(key: string): (pk: string)
      reads this
      ensures StartsWith(pk, namespace) && InnerKeyToKey(pk) == key
      ensures namespace == "" ==> pk == key
    {
      StripPrefixKey(namespace, key);
      PrefixKey(namespace, key)
    }

    /** `_innerKeyToKey` */
    function InnerKeyToKey(pk: string): (key: string)
      reads this
      ensures StartsWith(pk, namespace) ==> PrefixKey(namespace, key) == pk
      ensures !StartsWith(pk, namespace) ==> key == pk
    {
      if StartsWith(pk, namespace) then
        PrefixStripKey(namespace, pk);
        StripKey(namespace, pk)
      else
        StripKey(namespace, pk)
    }

    /**
     * `get`: the stored value itself; `undefined` when the key is absent,
     * when the stored value is `null` or `undefined`, or when the read rejects.
     */
    function Get(key: string): (v: Value)
      reads this, store
      ensures v != Undefined ==>
        v != Null && StrKey(GetKey(key)) in store.table && store.table[StrKey(GetKey(key))] == Stored(v)
      ensures v == Undefined <==>
        StrKey(GetKey(key)) !in store.table || store.table[StrKey(GetKey(key))] in {Unreadable, Stored(Undefined), Stored(Null)}
    {
      match store.Get(StrKey(GetKey(key)))
      case None => Undefined
      case Some(data) => if data == Null || data == Undefined then Undefined else data
    }

    /** `has`: present means a stored value other than `null` and `undefined` that can be read. */
    function Has(key: string): (b: bool)
      reads this, store
      ensures b <==>
        && StrKey(GetKey(key)) in store.table
        && store.table[StrKey(GetKey(key))].Stored?
        && store.table[StrKey(GetKey(key))].v !in {Undefined, Null}
    {
      Get(key) != Undefined
    }

    /** `getMany`: one `get` per key, in order. */
    function GetMany(keys: seq<string>): (vs: seq<Value>)
      reads this, store
      ensures |vs| == |keys|
      ensures forall i :: 0 <= i < |keys| ==> vs[i] == Get(keys[i])
    {
      if keys == [] then [] else [Get(keys[0])] + GetMany(keys[1..])
    }

    /** `set`: the value goes under the physical key as it is; `ttl` has no effect. */
    method Set(key: string, value: Value, ttl: Option<int>)
      modifies store
      ensures store.table == old(store.table)[StrKey(GetKey(key)) := Stored(value)]
      ensures Get(key) == (if value == Null then Undefined else value)
      ensures Has(key) <==> value != Null && value != Undefined
      ensures forall k :: k != key ==> Get(k) == old(Get(k))
    {
      forall k | k != key
        ensures StrKey(GetKey(k)) != StrKey(GetKey(key))
      {
        PrefixKeyInjective(namespace, k, key);
      }
      store.Set(StrKey(GetKey(key)), value);
    }

    /** `delete`: reports whether the key was present; the physical key is deleted either way. */
    method Delete(key: string) returns (had: bool)
      modifies store
      ensures had == old(Has(key))
      ensures store.table == old(store.table) - {StrKey(GetKey(key))}
      ensures !Has(key)
      ensures forall k :: k != key ==> Get(k) == old(Get(k))
    {
      forall k | k != key
        ensures StrKey(GetKey(k)) != StrKey(GetKey(key))
      {
        PrefixKeyInjective(namespace, k, key);
      }
      had := Has(key);
      store.Del(StrKey(GetKey(key)));
    }

    /** `deleteMany` over distinct keys: every key is deleted; true when all were present. */
    method DeleteMany(keys: seq<string>) returns (all: bool)
      requires NoDuplicates(keys)
      modifies store
      ensures all <==> forall i :: 0 <= i < |keys| ==> old(Has(keys[i]))
      ensures store.table == old(store.table) - set i | 0 <= i < |keys| :: StrKey(GetKey(keys[i]))
    {
      all := true;
      var i := 0;
      while i < |keys|
        invariant 0 <= i <= |keys|
        invariant store.table == old(store.table) - set j | 0 <= j < i :: StrKey(GetKey(keys[j]))
        invariant all <==> forall j :: 0 <= j < i ==> old(Has(keys[j]))
        invariant forall j :: i <= j < |keys| ==> Get(keys[j]) == old(Get(keys[j]))
      {
        var deleted := Delete(keys[i]);
        all := all && deleted;
        i := i + 1;
      }
    }

    /**
     * `clear`: deletes every string key of a `keys` snapshot that starts with
     * the namespace (all string keys when it is empty); every other entry
     * stays as it was.
     */
    method Clear()
      modifies store
      ensures forall k :: k in store.table <==> k in old(store.table) && !InNamespace(k, namespace)
      ensures forall k :: k in store.table ==> store.table[k] == old(store.table)[k]
    {
      var keys := store.Keys();
      ghost var before := store.table;
      var i := 0;
      while i < |keys|
        invariant 0 <= i <= |keys|
        invariant forall k :: k in store.table <==> k in before && !(k in keys[..i] && InNamespace(k, namespace))
        invariant forall k :: k in store.table ==> store.table[k] == before[k]
      {
        var key := keys[i];
        if key.StrKey? && StartsWith(key.s, namespace) {
          store.Del(key);
        }
        assert keys[..i + 1] == keys[..i] + [key];
        i := i + 1;
      }
      assert keys[..i] == keys;
    }

    /**
     * `iterator(filter)`: `Scan` over the snapshot `keys` returns; the keys are
     * the physical ones, namespace included. An absent filter means the
     * adapter's namespace.
     */
    method Iterator(filterOption: Option<string>) returns (entries: seq<(string, Value)>, failed: bool, ghost snapshot: seq<Key>)
      ensures Enumerates(snapshot, store.table)
      ensures (entries, failed) == Scan(snapshot, store.table, filterOption.GetOr(namespace))
      ensures forall e :: e in entries ==>
        InNamespace(StrKey(e.0), filterOption.GetOr(namespace)) && RawGet(store.table, StrKey(e.0)) == Some(e.1)
      ensures failed <==>
        exists k :: k in store.table && InNamespace(k, filterOption.GetOr(namespace)) && store.table[k].Unreadable?
      ensures !failed ==> forall k :: k in store.table && InNamespace(k, filterOption.GetOr(namespace)) ==>
        (k.s, RawGet(store.table, k).value) in entries
    {
      var filter := filterOption.GetOr(namespace);
      var keys := store.Keys();
      snapshot := keys;
      ScanOverTable(keys, store.table, filter);
      entries, failed := [], false;
      var i := 0;
      assert keys[0..] == keys;
      assert [] + Scan(keys, store.table, filter).0 == Scan(keys, store.table, filter).0;
      while i < |keys|
        invariant 0 <= i <= |keys|
        invariant Scan(keys, store.table, filter) ==
          (entries + Scan(keys[i..], store.table, filter).0, Scan(keys[i..], store.table, filter).1)
      {
        var key := keys[i];
        assert keys[i..][0] == key && keys[i..][1..] == keys[i + 1..];
        if key.StrKey? && (filter == "" || StartsWith(key.s, filter)) {
          var data := store.Get(key);
          if data.None? {
            assert entries + [] == entries;
            failed := true;
            return;
          }
          ghost var rest := Scan(keys[i + 1..], store.table, filter);
          assert entries + ([(key.s, data.value)] + rest.0) == entries + [(key.s, data.value)] + rest.0;
          entries := entries + [(key.s, data.value)];
        }
        i := i + 1;
      }
      assert keys[i..] == [];
      assert entries + [] == entries;
    }
  }
}
