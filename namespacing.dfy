/**
 * The key mapping both adapters share: a logical key is stored under the
 * physical key `namespace + key`, and a physical key is turned back into a
 * logical one by stripping the namespace when it is there.
 */
module Namespacing {

  /** JavaScript's `s.startsWith(prefix)`. */
  predicate StartsWith(s: string, prefix: string)
  {
    prefix <= s
  }

  /** No logical key occurs twice in a list of keys. */
  predicate NoDuplicates(keys: seq<string>)
  {
    forall i, j :: 0 <= i < j < |keys| ==> keys[i] != keys[j]
  }

  /** `_getKey`: a non-empty namespace is prepended, the empty one leaves the key as it is. */
  function PrefixKey(ns: string, key: string): (pk: string)
    ensures StartsWith(pk, ns) && pk[|ns|..] == key
    ensures |pk| == |ns| + |key|
  {
    if ns != "" then ns + key else key
  }

  /**
   * `_innerKeyToKey`: the namespace is removed only when it is non-empty and
   * the physical key starts with it; any other key comes back unchanged.
   */
  function StripKey(ns: string, pk: string): (key: string)
    ensures ns != "" && StartsWith(pk, ns) ==> ns + key == pk
    ensures !(ns != "" && StartsWith(pk, ns)) ==> key == pk
    ensures |key| <= |pk|
  {
    if ns != "" && StartsWith(pk, ns) then pk[|ns|..] else pk
  }

  /** Stripping undoes prefixing, for every namespace and every key. */
  lemma StripPrefixKey(ns: string, key: string)
    ensures StripKey(ns, PrefixKey(ns, key)) == key
  {
    if ns != "" {
      assert ns + key == PrefixKey(ns, key);
    }
  }

  /** Prefixing undoes stripping on the physical keys that carry the namespace. */
  lemma PrefixStripKey(ns: string, pk: string)
    requires StartsWith(pk, ns)
    ensures PrefixKey(ns, StripKey(ns, pk)) == pk
  {
  }

  /** Two logical keys never share one physical key. */
  lemma PrefixKeyInjective(ns: string, k1: string, k2: string)
    ensures PrefixKey(ns, k1) == PrefixKey(ns, k2) <==> k1 == k2
  {
    StripPrefixKey(ns, k1);
    StripPrefixKey(ns, k2);
  }
}
