/**
 * The browser's synchronous string storage (`localStorage`), which the
 * localStorage adapter drives. Its entries form an ordered sequence because
 * the storage is enumerated by index (`length`, `key(i)`). The host chooses
 * that order; the model fixes one: a new key goes at the end, and a removal
 * closes the gap.
 */
module WebStorage {
  import opened Wrappers
  import opened Json

  datatype Item = Item(key: string, text: Text)

  /** No key is stored twice. */
  predicate DistinctKeys(items: seq<Item>)
  {
    forall i, j :: 0 <= i < j < |items| ==> items[i].key != items[j].key
  }

  /** `getItem`: the text stored under `key`, `None` standing for JavaScript's `null`. */
  function Lookup(items: seq<Item>, key: string): (t: Option<Text>)
    ensures t.None? <==> forall i :: 0 <= i < |items| ==> items[i].key != key
    ensures t.Some? ==> Item(key, t.value) in items
  {
    if items == [] then None
    else if items[0].key == key then Some(items[0].text)
    else Lookup(items[1..], key)
  }

  /** With distinct keys, looking up the key of entry `i` finds entry `i`. */
  lemma {:induction false} LookupAt(items: seq<Item>, i: nat)
    requires DistinctKeys(items) && i < |items|
    ensures Lookup(items, items[i].key) == Some(items[i].text)
  {
    if i > 0 {
      assert items[1..][i - 1] == items[i];
      LookupAt(items[1..], i - 1);
    }
  }

  /** `setItem`: an existing entry is overwritten where it stands, a new key goes at the end. */
  function Put(items: seq<Item>, key: string, text: Text): (r: seq<Item>)
    requires DistinctKeys(items)
    ensures DistinctKeys(r)
    ensures Lookup(r, key) == Some(text)
    ensures forall k :: k != key ==> Lookup(r, k) == Lookup(items, k)
  {
    if items == [] then [Item(key, text)]
    else if items[0].key == key then
      assert forall i :: 0 <= i < |items[1..]| ==> items[1..][i] == items[i + 1];
      [Item(key, text)] + items[1..]
    else
      var rest := Put(items[1..], key, text);
      assert forall i :: 0 <= i < |rest| ==> rest[i].key != items[0].key by {
        assert Lookup(items[1..], items[0].key) == None;
      }
      [items[0]] + rest
  }

  /** `removeItem`: the entry under `key` goes, the others keep their order. */
  function Remove(items: seq<Item>, key: string): (r: seq<Item>)
    ensures Lookup(r, key) == None
    ensures forall k :: k != key ==> Lookup(r, k) == Lookup(items, k)
    ensures DistinctKeys(items) ==> DistinctKeys(r)
    ensures |r| <= |items|
  {
    if items == [] then []
    else if items[0].key == key then Remove(items[1..], key)
    else
      var rest := Remove(items[1..], key);
      assert DistinctKeys(items) ==> forall i :: 0 <= i < |rest| ==> rest[i].key != items[0].key by {
        if DistinctKeys(items) {
          assert Lookup(items[1..], items[0].key) == None;
        }
      }
      [items[0]] + rest
  }

  /** `removeItem` keeps exactly the entries under other keys. */
  lemma {:induction false} RemoveKeepsOthers(items: seq<Item>, key: string)
    ensures forall it :: it in Remove(items, key) <==> it in items && it.key != key
  {
    if items != [] {
      RemoveKeepsOthers(items[1..], key);
    }
  }

  /** Under distinct keys, removing the key of entry `i` cuts exactly that entry out. */
  lemma {:induction false} RemoveAt(items: seq<Item>, i: nat)
    requires DistinctKeys(items) && i < |items|
    ensures Remove(items, items[i].key) == items[..i] + items[i + 1..]
  {
    var key := items[i].key;
    if i == 0 {
      NothingToRemove(items[1..], key);
    } else {
      assert items[1..][i - 1] == items[i];
      RemoveAt(items[1..], i - 1);
      assert items[..i] == [items[0]] + items[1..][..i - 1];
      assert items[i + 1..] == items[1..][i..];
    }
  }

  /** Removing a key that is not stored changes nothing. */
  lemma {:induction false} NothingToRemove(items: seq<Item>, key: string)
    requires forall j :: 0 <= j < |items| ==> items[j].key != key
    ensures Remove(items, key) == items
  {
    if items != [] {
      NothingToRemove(items[1..], key);
    }
  }

  /** The storage object of one browsing context; every adapter pointed at it shares it. */
  class Storage {
    var items: seq<Item>

    ghost predicate Valid()
      reads this
    {
      DistinctKeys(items)
    }

    constructor (initial: seq<Item>)
      requires DistinctKeys(initial)
      ensures Valid() && items == initial
    {
      items := initial;
    }

    /** `length` */
    function Length(): nat
      reads this
    {
      |items|
    }

    /** `key(i)`: `None` stands for the `null` returned past the end. */
    function Key(i: nat): Option<string>
      reads this
    {
      if i < |items| then Some(items[i].key) else None
    }

    /** `getItem(key)` */
    function GetItem(key: string): Option<Text>
      reads this
    {
      Lookup(items, key)
    }

    /** `setItem(key, text)` */
    method SetItem(key: string, text: Text)
      requires Valid()
      modifies this
      ensures Valid() && items == Put(old(items), key, text)
    {
      items := Put(items, key, text);
    }

    /** `removeItem(key)` */
    method RemoveItem(key: string)
      requires Valid()
      modifies this
      ensures Valid() && items == Remove(old(items), key)
    {
      items := Remove(items, key);
    }
  }
}
