/**
 * `KeyvLocalStorage`: the key-value adapter over the browser's synchronous
 * string storage. Values are kept as JSON text under `namespace + key`; the
 * asynchronous operations do all their work synchronously.
 */
module LocalStorageAdapter {
  import opened Wrappers
  import opened Json
  import opened Namespacing
  import opened WebStorage

  // ---------------------------------------------------------------------
  // Specification functions over the storage's entries

  /** `getSync`: the decoded text under the physical key, or `undefined` when it is absent or does not parse. */
  function Read(items: seq<Item>, ns: string, key: string): Value
  {
    match Lookup(items, PrefixKey(ns, key))
    case None => Undefined
    case Some(text) => Parse(text).GetOr(Undefined)
  }

  /**
   * `getSync` is `undefined` exactly when nothing is stored under the
   * physical key or the stored text does not parse; any other result is the
   * value whose encoding is stored there.
   */
  lemma ReadDecodesStoredText(items: seq<Item>, ns: string, key: string)
    ensures Lookup(items, PrefixKey(ns, key)).None? ==> Read(items, ns, key) == Undefined
    ensures Read(items, ns, key) != Undefined ==> Lookup(items, PrefixKey(ns, key)) == Some(Stringify(Read(items, ns, key)))
    ensures Read(items, ns, key) == Undefined <==>
      (Lookup(items, PrefixKey(ns, key)).None? || Parse(Lookup(items, PrefixKey(ns, key)).value).None?)
  {
  }

  /**
   * `hasSync`: a key is present when its stored text parses. Only the raw
   * text is compared with `null`, so a stored `null` value is present.
   */
  predicate Present(items: seq<Item>, ns: string, key: string)
  {
    Read(items, ns, key) != Undefined
  }

  /** Presence means exactly that text is stored under the physical key and parses. */
  lemma PresentIffParses(items: seq<Item>, ns: string, key: string)
    ensures Present(items, ns, key) <==>
      Lookup(items, PrefixKey(ns, key)).Some? && Parse(Lookup(items, PrefixKey(ns, key)).value).Some?
  {
    ReadDecodesStoredText(items, ns, key);
  }

  /** After storing a value, reading the key gives it back and every other key reads as before. */
  lemma ReadAfterPut(items: seq<Item>, ns: string, key: string, v: Value)
    requires DistinctKeys(items)
    ensures Read(Put(items, PrefixKey(ns, key), Stringify(v)), ns, key) == v
    ensures forall k :: k != key ==> Read(Put(items, PrefixKey(ns, key), Stringify(v)), ns, k) == Read(items, ns, k)
  {
    ParseStringify(v);
    forall k | k != key
      ensures Read(Put(items, PrefixKey(ns, key), Stringify(v)), ns, k) == Read(items, ns, k)
    {
      PrefixKeyInjective(ns, k, key);
    }
  }

  /** A stored `null` counts as present: the asymmetry with the IndexedDB adapter. */
  lemma StoredNullIsPresent(items: seq<Item>, ns: string, key: string)
    requires DistinctKeys(items)
    ensures Present(Put(items, PrefixKey(ns, key), Stringify(Null)), ns, key)
  {
    ReadAfterPut(items, ns, key, Null);
  }

  /** After removing a physical key, its logical key is absent and every other key reads as before. */
  lemma ReadAfterRemove(items: seq<Item>, ns: string, key: string)
    ensures Read(Remove(items, PrefixKey(ns, key)), ns, key) == Undefined
    ensures forall k :: k != key ==> Read(Remove(items, PrefixKey(ns, key)), ns, k) == Read(items, ns, k)
  {
    forall k | k != key
      ensures Read(Remove(items, PrefixKey(ns, key)), ns, k) == Read(items, ns, k)
    {
      PrefixKeyInjective(ns, k, key);
    }
  }

  /** `delete`: the physical key is removed only when the key was present. */
  function AfterDelete(items: seq<Item>, ns: string, key: string): seq<Item>
  {
    if Present(items, ns, key) then Remove(items, PrefixKey(ns, key)) else items
  }

  /**
   * `deleteMany`: the deletes run one after another, since `delete` never
   * suspends; the result is the conjunction of their results.
   */
  function DeleteAll(items: seq<Item>, ns: string, keys: seq<string>): (seq<Item>, bool)
    decreases |keys|
  {
    if keys == [] then (items, true)
    else
      var rest := DeleteAll(AfterDelete(items, ns, keys[0]), ns, keys[1..]);
      (rest.0, Present(items, ns, keys[0]) && rest.1)
  }

  /** Unfolds `DeleteAll` on the suffix of `keys` that starts at `i`. */
  lemma DeleteAllStep(items: seq<Item>, ns: string, keys: seq<string>, i: nat)
    requires i < |keys|
    ensures DeleteAll(items, ns, keys[i..]).0 == DeleteAll(AfterDelete(items, ns, keys[i]), ns, keys[i + 1..]).0
    ensures DeleteAll(items, ns, keys[i..]).1 ==
      (Present(items, ns, keys[i]) && DeleteAll(AfterDelete(items, ns, keys[i]), ns, keys[i + 1..]).1)
  {
    assert keys[i..][1..] == keys[i + 1..];
  }

  /**
   * `deleteMany` reports success exactly when the keys are distinct and all
   * present beforehand: a repeated key fails the second time it is deleted.
   */
  lemma {:induction false} DeleteAllSucceedsIff(items: seq<Item>, ns: string, keys: seq<string>)
    ensures DeleteAll(items, ns, keys).1 <==>
      NoDuplicates(keys) && forall i :: 0 <= i < |keys| ==> Present(items, ns, keys[i])
    decreases |keys|
  {
    if keys != [] {
      var k0, tail := keys[0], keys[1..];
      var after := AfterDelete(items, ns, k0);
      DeleteAllSucceedsIff(after, ns, tail);
      PresentAfterDelete(items, ns, k0);
      NoDuplicatesCons(keys);
      AllPresentCons(items, ns, keys);
      if Present(items, ns, k0) {
        if k0 in tail {
          var j :| 0 <= j < |tail| && tail[j] == k0;
          assert !Present(after, ns, tail[j]);
        } else {
          assert forall i :: 0 <= i < |tail| ==> Present(after, ns, tail[i]) == Present(items, ns, tail[i]);
        }
      }
    }
  }

  /** Every key of a non-empty sequence is present when its head is and every key of its tail is. */
  lemma AllPresentCons(items: seq<Item>, ns: string, keys: seq<string>)
    requires keys != []
    ensures (forall i :: 0 <= i < |keys| ==> Present(items, ns, keys[i])) <==>
      Present(items, ns, keys[0]) && forall i :: 0 <= i < |keys[1..]| ==> Present(items, ns, keys[1..][i])
  {
    assert forall i :: 0 <= i < |keys[1..]| ==> keys[1..][i] == keys[i + 1];
  }

  /**
   * The deletes one after another leave every key outside `keys` reading as
   * before, and no key of `keys` present.
   */
  lemma {:induction false} DeleteAllFrame(items: seq<Item>, ns: string, keys: seq<string>)
    ensures forall k :: k !in keys ==> Read(DeleteAll(items, ns, keys).0, ns, k) == Read(items, ns, k)
    ensures forall k :: k in keys ==> !Present(DeleteAll(items, ns, keys).0, ns, k)
    decreases |keys|
  {
    if keys != [] {
      var k0, tail := keys[0], keys[1..];
      var after := AfterDelete(items, ns, k0);
      DeleteAllFrame(after, ns, tail);
      ReadAfterRemove(items, ns, k0);
      PresentAfterDelete(items, ns, k0);
      assert keys == [k0] + tail;
    }
  }

  /** After `delete(k)`, `k` is absent and every other key is present exactly when it was before. */
  lemma PresentAfterDelete(items: seq<Item>, ns: string, key: string)
    ensures !Present(AfterDelete(items, ns, key), ns, key)
    ensures forall k :: k != key ==> Present(AfterDelete(items, ns, key), ns, k) == Present(items, ns, k)
  {
    ReadAfterRemove(items, ns, key);
  }

  /** A sequence has no duplicates when its head is not in its tail and its tail has none. */
  lemma NoDuplicatesCons(keys: seq<string>)
    requires keys != []
    ensures NoDuplicates(keys) <==> keys[0] !in keys[1..] && NoDuplicates(keys[1..])
  {
    assert forall i :: 0 <= i < |keys[1..]| ==> keys[1..][i] == keys[i + 1];
  }

  /** `clear`'s test: a non-empty key that starts with the namespace. */
  predicate Clearable(key: string, ns: string)
  {
    key != "" && StartsWith(key, ns)
  }

  /**
   * `clear` as written: walk the entries by index against the live length,
   * removing each clearable one and stepping on regardless, so the entry that
   * moves into the freed place is never examined.
   */
  function ClearScan(items: seq<Item>, ns: string, i: nat): seq<Item>
    decreases |items| - i
  {
    if i >= |items| then items
    else if Clearable(items[i].key, ns) then ClearScan(Remove(items, items[i].key), ns, i + 1)
    else ClearScan(items, ns, i + 1)
  }

  /**
   * What `clear` may do: it only ever removes entries, and it never removes
   * an entry with the empty key or with a key outside the namespace.
   */
  lemma {:induction false} ClearScanSafe(items: seq<Item>, ns: string, i: nat)
    ensures forall it :: it in ClearScan(items, ns, i) ==> it in items
    ensures forall it :: it in items && !Clearable(it.key, ns) ==> it in ClearScan(items, ns, i)
    ensures DistinctKeys(items) ==> DistinctKeys(ClearScan(items, ns, i))
    decreases |items| - i
  {
    if i < |items| {
      if Clearable(items[i].key, ns) {
        RemoveKeepsOthers(items, items[i].key);
        ClearScanSafe(Remove(items, items[i].key), ns, i + 1);
      } else {
        ClearScanSafe(items, ns, i + 1);
      }
    }
  }

  /**
   * The entry after a removed one survives `clear`: of two entries of the
   * namespace, the first is removed and the second, moved into its place,
   * is never examined.
   */
  lemma ClearScanSkipsNext(x: Item, y: Item, ns: string)
    requires Clearable(x.key, ns) && Clearable(y.key, ns) && x.key != y.key
    ensures ClearScan([x, y], ns, 0) == [y]
  {
    assert Remove([x, y], x.key) == [y] by {
      assert Remove([y], x.key) == [y] + Remove([], x.key);
    }
  }

  /**
   * `clear` as written removes at most one entry per pass while the index
   * moves on by one, so of `n` entries at least `n / 2` (rounded down)
   * survive, whichever of them are in the namespace.
   */
  lemma {:induction false} ClearScanKeepsHalf(items: seq<Item>, ns: string, i: nat)
    requires DistinctKeys(items) && i <= |items|
    ensures 2 * |ClearScan(items, ns, i)| + 1 >= |items| + i
    decreases |items| - i
  {
    if i < |items| {
      if Clearable(items[i].key, ns) {
        RemoveAt(items, i);
        var rest := Remove(items, items[i].key);
        if i + 1 <= |rest| {
          ClearScanKeepsHalf(rest, ns, i + 1);
        }
      } else {
        ClearScanKeepsHalf(items, ns, i + 1);
      }
    }
  }

  /** What `clear` evidently intends: the entries outside the namespace, in their order. */
  function WithoutNamespace(items: seq<Item>, ns: string): seq<Item>
  {
    if items == [] then []
    else (if Clearable(items[0].key, ns) then [] else [items[0]]) + WithoutNamespace(items[1..], ns)
  }

  /** Exactly the entries outside the namespace remain; none is added. */
  lemma {:induction false} WithoutNamespaceExact(items: seq<Item>, ns: string)
    ensures forall it :: it in WithoutNamespace(items, ns) <==> it in items && !Clearable(it.key, ns)
  {
    if items != [] {
      WithoutNamespaceExact(items[1..], ns);
    }
  }

  // ---------------------------------------------------------------------
  // `iterator`

  /**
   * The entries `iterator(filter)` yields for the scanned entries `scan` of
   * the store `all`: every non-empty key that starts with `filter` (every
   * non-empty key when `filter` is empty), stripped of the adapter's own
   * namespace `ns`, with `getSync` of the stripped key.
   */
  function Listing(scan: seq<Item>, all: seq<Item>, ns: string, filter: string): seq<(string, Value)>
    decreases |scan|
  {
    if scan == [] then []
    else
      var key := scan[|scan| - 1].key;
      Listing(scan[..|scan| - 1], all, ns, filter) +
        (if key != "" && (filter == "" || StartsWith(key, filter))
         then [(StripKey(ns, key), Read(all, ns, StripKey(ns, key)))]
         else [])
  }

  /** `Listing` of one more entry of the index order. */
  lemma ListingExtend(all: seq<Item>, ns: string, filter: string, i: nat)
    requires i < |all|
    ensures Listing(all[..i + 1], all, ns, filter) == Listing(all[..i], all, ns, filter) +
      (if all[i].key != "" && (filter == "" || StartsWith(all[i].key, filter))
       then [(StripKey(ns, all[i].key), Read(all, ns, StripKey(ns, all[i].key)))]
       else [])
  {
    assert all[..i + 1][..i] == all[..i];
  }

  /**
   * Every yielded entry comes from a scanned non-empty key that matches the
   * filter: the key stripped of the adapter's namespace, with `getSync` of
   * that stripped key.
   */
  lemma {:induction false} ListingSound(scan: seq<Item>, all: seq<Item>, ns: string, filter: string)
    ensures forall e :: e in Listing(scan, all, ns, filter) ==>
      exists it :: it in scan && it.key != "" && (filter == "" || StartsWith(it.key, filter)) &&
        e == (StripKey(ns, it.key), Read(all, ns, StripKey(ns, it.key)))
    decreases |scan|
  {
    if scan != [] {
      var n := |scan| - 1;
      assert forall it :: it in scan[..n] ==> it in scan;
      ListingSound(scan[..n], all, ns, filter);
      assert scan[n] in scan;
    }
  }

  /** Every scanned non-empty key that matches the filter is yielded, stripped, with `getSync` of it. */
  lemma {:induction false} ListingComplete(scan: seq<Item>, all: seq<Item>, ns: string, filter: string)
    ensures forall i :: 0 <= i < |scan| && scan[i].key != "" && (filter == "" || StartsWith(scan[i].key, filter)) ==>
      (StripKey(ns, scan[i].key), Read(all, ns, StripKey(ns, scan[i].key))) in Listing(scan, all, ns, filter)
    decreases |scan|
  {
    if scan != [] {
      var n := |scan| - 1;
      ListingComplete(scan[..n], all, ns, filter);
      assert forall i :: 0 <= i < n ==> scan[..n][i] == scan[i];
    }
  }

  /**
   * With the default filter, every yielded key names a stored non-empty key
   * of the scanned entries: `_getKey` of the yielded key is that stored key,
   * and the value is `getSync` of the yielded key.
   */
  lemma ListingOwnNamespace(scan: seq<Item>, all: seq<Item>, ns: string)
    requires forall it :: it in scan ==> it in all
    ensures forall e :: e in Listing(scan, all, ns, ns) ==>
      exists it :: it in scan && it.key == PrefixKey(ns, e.0) && it.key != "" &&
        Lookup(all, it.key).Some? && e.1 == Read(all, ns, e.0)
  {
    ListingSound(scan, all, ns, ns);
    forall e | e in Listing(scan, all, ns, ns)
      ensures exists it :: it in scan && it.key == PrefixKey(ns, e.0) && it.key != "" &&
                           Lookup(all, it.key).Some? && e.1 == Read(all, ns, e.0)
    {
      var it :| it in scan && it.key != "" && (ns == "" || StartsWith(it.key, ns)) &&
        e == (StripKey(ns, it.key), Read(all, ns, StripKey(ns, it.key)));
      PrefixStripKey(ns, it.key);
      assert it in all;
      assert Lookup(all, it.key).Some?;
    }
  }

  /**
   * With a filter other than the adapter's namespace, the value is read
   * under `namespace + stripped key`, not under the key that matched: with
   * namespace "a" and filter "b", the stored entry "b1" is yielded with
   * `undefined`.
   */
  lemma ListingReadsUnderOwnNamespace()
    ensures Listing([Item("b1", Stringify(Num(1)))], [Item("b1", Stringify(Num(1)))], "a", "b")
         == [("b1", Undefined)]
  {
    var b1 := Item("b1", Stringify(Num(1)));
    assert StartsWith("b1", "b") by { assert "b1"[..1] == "b"; }
    assert !StartsWith("b1", "a") by { assert "b1"[0] != "a"[0]; }
    assert PrefixKey("a", "b1") == "ab1";
    assert Lookup([b1], "ab1") == None by { assert "ab1" != "b1"; }
  }

  /** The value yielded for an entry of the namespace is the one decoded from that entry's own text. */
  lemma ReadOwnEntry(items: seq<Item>, ns: string, i: nat)
    requires DistinctKeys(items) && i < |items| && StartsWith(items[i].key, ns)
    ensures Read(items, ns, StripKey(ns, items[i].key)) == Parse(items[i].text).GetOr(Undefined)
  {
    PrefixStripKey(ns, items[i].key);
    LookupAt(items, i);
  }

  /** One step of the corrected `clear` walk: the entry at `i` is dropped when clearable, kept otherwise. */
  lemma ClearStep(before: seq<Item>, items: seq<Item>, ns: string, i: nat)
    requires i < |before| && DistinctKeys(items)
    requires items == before[..i + 1] + WithoutNamespace(before[i + 1..], ns)
    ensures Clearable(before[i].key, ns) ==>
      Remove(items, before[i].key) == before[..i] + WithoutNamespace(before[i..], ns)
    ensures !Clearable(before[i].key, ns) ==> items == before[..i] + WithoutNamespace(before[i..], ns)
  {
    var x, rest := before[i], WithoutNamespace(before[i + 1..], ns);
    assert before[i..][0] == x && before[i..][1..] == before[i + 1..];
    assert WithoutNamespace(before[i..], ns) == (if Clearable(x.key, ns) then [] else [x]) + rest;
    assert before[..i + 1] == before[..i] + [x];
    SplitAround(before[..i], x, rest);
    if Clearable(x.key, ns) {
      RemoveAt(items, i);
    }
  }

  /** The parts of `a + [x] + b` around position `|a|`. */
  lemma SplitAround(a: seq<Item>, x: Item, b: seq<Item>)
    ensures (a + [x]) + b == a + ([x] + b)
    ensures (a + [x] + b)[|a|] == x
    ensures (a + [x] + b)[..|a|] == a
    ensures (a + [x] + b)[|a| + 1..] == b
  {
  }

  // ---------------------------------------------------------------------
  // The adapter

  class KeyvLocalStorage {
    const ttlSupport: bool
    var namespace: string
    const storage: Storage

    ghost predicate Valid()
      reads this, storage
    {
      storage.Valid()
    }

    /** A non-empty `namespace` option becomes the namespace; otherwise it stays empty. */
    constructor (optNamespace: Option<string>, storage: Storage)
      requires storage.Valid()
      ensures Valid() && this.storage == storage && !ttlSupport
      ensures namespace == optNamespace.GetOr("")
    {
      ttlSupport := false;
      this.storage := storage;
      namespace := "";
      if optNamespace.Some? && optNamespace.value != "" {
        namespace := optNamespace.value;
      }
    }

    /** `_getKey` */
    function GetKey(key: string): (pk: string)
      reads this
      ensures StartsWith(pk, namespace) && InnerKeyToKey(pk) == key
      ensures namespace == "" ==> pk == key
    {
      StripPrefixKey(namespace, key);
      PrefixKey(namespace, key)
    }

    /** `_innerKeyToKey` */
    function InnerKeyToKey(pk: string): (key: string)
      reads this
      ensures StartsWith(pk, namespace) ==> PrefixKey(namespace, key) == pk
      ensures !StartsWith(pk, namespace) ==> key == pk
    {
      if StartsWith(pk, namespace) then
        PrefixStripKey(namespace, pk);
        StripKey(namespace, pk)
      else
        StripKey(namespace, pk)
    }

    /** `getSync` */
    function GetSync(key: string): (v: Value)
      reads this, storage
      ensures v == Undefined <==>
        storage.GetItem(GetKey(key)).None? || Parse(storage.GetItem(GetKey(key)).value).None?
      ensures v != Undefined ==> storage.GetItem(GetKey(key)) == Some(Stringify(v))
    {
      ReadDecodesStoredText(storage.items, namespace, key);
      Read(storage.items, namespace, key)
    }

    /** `hasSync` */
    predicate HasSync(key: string)
      reads this, storage
      ensures HasSync(key) <==>
        storage.GetItem(GetKey(key)).Some? && Parse(storage.GetItem(GetKey(key)).value).Some?
    {
      PresentIffParses(storage.items, namespace, key);
      Present(storage.items, namespace, key)
    }

    /** `get`: resolves to what `getSync` returns. */
    method Get(key: string) returns (v: Value)
      ensures v == GetSync(key)
      ensures v != Undefined ==> storage.GetItem(GetKey(key)) == Some(Stringify(v))
    {
      ReadDecodesStoredText(storage.items, namespace, key);
      v := GetSync(key);
    }

    /** `has`: resolves to what `hasSync` returns. */
    method Has(key: string) returns (b: bool)
      ensures b == HasSync(key)
      ensures b <==> GetSync(key) != Undefined
    {
      b := GetSync(key) != Undefined;
    }

    /** `getMany`: one `getSync` per key, in order. */
    function GetMany(keys: seq<string>): (vs: seq<Value>)
      reads this, storage
      ensures |vs| == |keys|
      ensures forall i :: 0 <= i < |keys| ==> vs[i] == GetSync(keys[i])
    {
      if keys == [] then [] else [GetSync(keys[0])] + GetMany(keys[1..])
    }

    /** `set`: the value's JSON text goes under the physical key; `ttl` has no effect. */
    method Set(key: string, value: Value, ttl: Option<int>)
      requires Valid()
      modifies storage
      ensures Valid()
      ensures storage.items == Put(old(storage.items), GetKey(key), Stringify(value))
      ensures GetSync(key) == value
      ensures forall k :: k != key ==> GetSync(k) == old(GetSync(k))
    {
      ReadAfterPut(storage.items, namespace, key, value);
      storage.SetItem(GetKey(key), Stringify(value));
    }

    /** `delete`: removes the physical key only when the key was present, and says whether it was. */
    method Delete(key: string) returns (existed: bool)
      requires Valid()
      modifies storage
      ensures Valid()
      ensures existed == old(HasSync(key))
      ensures storage.items == AfterDelete(old(storage.items), namespace, key)
      ensures existed ==> storage.items == Remove(old(storage.items), GetKey(key))
      ensures !existed ==> storage.items == old(storage.items)
      ensures !HasSync(key)
      ensures forall k :: k != key ==> GetSync(k) == old(GetSync(k))
    {
      ReadAfterRemove(storage.items, namespace, key);
      if HasSync(key) {
        storage.RemoveItem(GetKey(key));
        return true;
      }
      return false;
    }

    /** `deleteMany`: every delete runs; the result is true only if each of them was. */
    method DeleteMany(keys: seq<string>) returns (all: bool)
      requires Valid()
      modifies storage
      ensures Valid()
      ensures (storage.items, all) == DeleteAll(old(storage.items), namespace, keys)
      ensures forall k :: k !in keys ==> GetSync(k) == old(GetSync(k))
      ensures forall k :: k in keys ==> !HasSync(k)
    {
      ghost var before := storage.items;
      ghost var goal := DeleteAll(before, namespace, keys);
      all := true;
      var i := 0;
      assert keys[0..] == keys;
      while i < |keys|
        invariant 0 <= i <= |keys|
        invariant storage.Valid()
        invariant goal.0 == DeleteAll(storage.items, namespace, keys[i..]).0
        invariant goal.1 == (all && DeleteAll(storage.items, namespace, keys[i..]).1)
      {
        ghost var pre := storage.items;
        DeleteAllStep(pre, namespace, keys, i);
        var deleted := Delete(keys[i]);
        all := all && deleted;
        i := i + 1;
      }
      assert keys[i..] == [];
      assert all == goal.1;
      DeleteAllFrame(before, namespace, keys);
      forall k | k !in keys
        ensures GetSync(k) == old(GetSync(k))
      {
        assert Read(goal.0, namespace, k) == Read(before, namespace, k);
      }
    }

    /**
     * `clear`, as written: the index walk of `ClearScan`. It never removes an
     * entry outside the namespace nor the entry with the empty key, but it may
     * leave entries of the namespace behind.
     */
    method Clear()
      requires Valid()
      modifies storage
      ensures Valid()
      ensures storage.items == ClearScan(old(storage.items), namespace, 0)
      ensures forall it :: it in storage.items ==> it in old(storage.items)
      ensures forall it :: it in old(storage.items) && !Clearable(it.key, namespace) ==> it in storage.items
    {
      ClearScanSafe(storage.items, namespace, 0);
      var i := 0;
      while i < storage.Length()
        invariant storage.Valid()
        invariant ClearScan(storage.items, namespace, i) == ClearScan(old(storage.items), namespace, 0)
        decreases storage.Length() - i
      {
        var key := storage.Key(i);
        if key.Some? && key.value != "" && StartsWith(key.value, namespace) {
          storage.RemoveItem(key.value);
        }
        i := i + 1;
      }
    }

    /**
     * `clear` as evidently intended: walking the entries from the last one
     * down, a removal never moves an entry that is still to be examined, so
     * every entry of the namespace goes.
     */
    method ClearAllMatching()
      requires Valid()
      modifies storage
      ensures Valid()
      ensures storage.items == WithoutNamespace(old(storage.items), namespace)
      ensures forall it :: it in storage.items <==> it in old(storage.items) && !Clearable(it.key, namespace)
    {
      WithoutNamespaceExact(storage.items, namespace);
      ghost var before := storage.items;
      var i := storage.Length();
      while i > 0
        invariant 0 <= i <= |before|
        invariant storage.Valid()
        invariant storage.items == before[..i] + WithoutNamespace(before[i..], namespace)
      {
        i := i - 1;
        ClearStep(before, storage.items, namespace, i);
        var key := storage.Key(i);
        if key.Some? && key.value != "" && StartsWith(key.value, namespace) {
          storage.RemoveItem(key.value);
        }
      }
      assert before[0..] == before;
    }

    /**
     * `iterator(filter)`: the entries of `Listing` in the storage's index
     * order; an absent filter means the adapter's own namespace.
     */
    method Iterator(filterOption: Option<string>) returns (entries: seq<(string, Value)>)
      ensures entries == Listing(storage.items, storage.items, namespace, filterOption.GetOr(namespace))
    {
      var filter := filterOption.GetOr(namespace);
      entries := [];
      var i := 0;
      while i < storage.Length()
        invariant 0 <= i <= |storage.items|
        invariant entries == Listing(storage.items[..i], storage.items, namespace, filter)
      {
        var key := storage.Key(i);
        if key.Some? && key.value != "" {
          if filter == "" || StartsWith(key.value, filter) {
            var k := InnerKeyToKey(key.value);
            entries := entries + [(k, GetSync(k))];
          }
        }
        ListingExtend(storage.items, namespace, filter, i);
        i := i + 1;
      }
      assert storage.items[..i] == storage.items;
    }
  }
}
