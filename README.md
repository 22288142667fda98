# keyv-browser, modelled in Dafny

keyv-browser provides two storage adapters for the Keyv key-value cache
interface. `KeyvLocalStorage` sits on the browser's synchronous string storage
(`localStorage`). `KeyvIndexedDB` sits on an IndexedDB object store reached
through the `idb-keyval` helpers. Each adapter offers get / getMany / set /
delete / deleteMany / clear / has / iterator over string keys. Each one stores
a logical key `k` under the physical key `namespace + k`.

The model has these parts:

- `Namespacing` (namespacing.dfy): `_getKey` and `_innerKeyToKey`, written
  once as pure functions, with their round-trip laws.
- `Json` (json.dfy): the values the adapters handle, and the text that
  `JSON.stringify` leaves in string storage. The encoding is abstract, so a
  well-formed text decodes to exactly the value it encodes. Stored text can
  also be malformed, and `undefined` is stored as the malformed text
  "undefined".
- `WebStorage` (web_storage.dfy): the host's `localStorage` as a class
  `Storage`. It holds an ordered sequence of `(key, text)` entries, because
  the adapter enumerates it by index (`length`, `key(i)`).
- `IdbKeyval` (idb_keyval.dfy): the host's object store as a class `Store`
  over a `map<Key, Record>`. Keys are string or non-string. A record can be
  unreadable, meaning a read of it rejects. `keys()` returns a snapshot that
  lists every key once, in an order the store chooses.
- `LocalStorageAdapter` (keyv_local_storage.dfy) and `IndexedDBAdapter`
  (keyv_idb.dfy): the two adapter classes. Each receives its backend object
  in its constructor, so two adapters can share one backend.

The synchronous reads of the localStorage adapter (`getSync`, `hasSync`,
`getMany`) and all reads of the IndexedDB adapter (`get`, `has`, `getMany`)
are functions. The localStorage adapter's `get` and `has` are methods that
return what `getSync` and `hasSync` give. The operations that change the store
are methods with `modifies` clauses. A
loop in the source is a loop in the model, with its invariants. `async` is
modelled as sequential execution.

## Model

| member | source | states |
|---|---|---|
| `Namespacing.PrefixKey` | src/keyv-localStorage.ts:34-39 | the physical key starts with the namespace and the rest of it is the logical key; with the empty namespace it is the key itself |
| `Namespacing.StripKey` | src/keyv-localStorage.ts:41-46 | a non-empty namespace that starts the key is removed; a key that does not start with it comes back unchanged |
| `Namespacing.StripPrefixKey` | src/keyv-localStorage.ts:34-46 | `_innerKeyToKey(_getKey(k)) == k` for every namespace and key |
| `Namespacing.PrefixStripKey` | src/keyv-localStorage.ts:41-46 | on a physical key that carries the namespace, `_getKey(_innerKeyToKey(pk)) == pk` |
| `Namespacing.PrefixKeyInjective` | src/keyv-localStorage.ts:34-39 | two logical keys share a physical key only if they are equal |
| `Json.Stringify` | src/keyv-localStorage.ts:78 | the stored text is malformed exactly when the value is `undefined` |
| `Json.Parse` | src/keyv-localStorage.ts:58 | a successful parse yields a value other than `undefined` whose encoding is the text; malformed text throws |
| `Json.ParseStringify` | src/keyv-localStorage.ts:52-79 | every value except `undefined` survives the stringify/parse round trip |
| `LocalStorageAdapter.ReadDecodesStoredText` | src/keyv-localStorage.ts:52-62 | `getSync` is `undefined` exactly when the physical key is absent or its text does not parse; otherwise the stored text is the value's encoding |
| `LocalStorageAdapter.PresentIffParses` | src/keyv-localStorage.ts:103-111 | `hasSync` holds exactly when text is stored under the physical key and parses |
| `LocalStorageAdapter.StoredNullIsPresent` | src/keyv-localStorage.ts:52-58 | after storing `null`, the key is present, because only the raw text is compared with `null` |
| `LocalStorageAdapter.ReadAfterPut` | src/keyv-localStorage.ts:74-79 | after `setItem(_getKey(k), stringify(v))`, `getSync(k) == v` and every other key reads as before |
| `LocalStorageAdapter.ReadAfterRemove` | src/keyv-localStorage.ts:81-87 | after removing `_getKey(k)`, `getSync(k)` is `undefined` and every other key reads as before |
| `LocalStorageAdapter.DeleteAllFrame` | src/keyv-localStorage.ts:81-92 | after the deletes, every key outside the list reads as before and no key of the list is present |
| `LocalStorageAdapter.DeleteAllSucceedsIff` | src/keyv-localStorage.ts:89-92 | the sequential deletes all report true exactly when the keys are distinct and all were present, so a repeated key makes the result false |
| `LocalStorageAdapter.ClearScanSafe` | src/keyv-localStorage.ts:94-101 | the clear walk only removes entries; it never removes the empty key or a key outside the namespace |
| `LocalStorageAdapter.ClearScanSkipsNext` | src/keyv-localStorage.ts:94-101 | of any two entries of the namespace with distinct non-empty keys, the clear walk removes the first and leaves the second behind |
| `LocalStorageAdapter.ClearScanKeepsHalf` | src/keyv-localStorage.ts:94-101 | the clear walk removes at most one entry per index step, so at least half of the entries (rounded down) survive it, whichever are in the namespace |
| `LocalStorageAdapter.WithoutNamespaceExact` | src/keyv-localStorage.ts:94-101 | the intended result of clear keeps exactly the entries outside the namespace |
| `LocalStorageAdapter.ListingSound` | src/keyv-localStorage.ts:117-127 | for any filter, each yielded entry comes from a scanned non-empty key that matches the filter (any non-empty key when the filter is empty): that key stripped of the adapter's namespace, with `getSync` of the stripped key |
| `LocalStorageAdapter.ListingComplete` | src/keyv-localStorage.ts:117-127 | for any filter, every scanned non-empty key that matches it is yielded, stripped, with `getSync` of the stripped key |
| `LocalStorageAdapter.ListingOwnNamespace` | src/keyv-localStorage.ts:117-123 | with the default filter, `_getKey` of each yielded key is a stored non-empty key, and the value is `getSync` of the yielded key |
| `LocalStorageAdapter.ListingReadsUnderOwnNamespace` | src/keyv-localStorage.ts:121-123 | with a filter other than the namespace, the value is read under the namespace plus the stripped key: with namespace "a" and filter "b", the stored entry "b1" holding 1 is yielded with `undefined` |
| `LocalStorageAdapter.ReadOwnEntry` | src/keyv-localStorage.ts:121-123 | the value yielded for an entry of the namespace is decoded from that entry's own text |
| `LocalStorageAdapter.KeyvLocalStorage.constructor` | src/keyv-localStorage.ts:23-28 | the namespace is the `namespace` option when it is given and non-empty, else the empty string; `ttlSupport` is false |
| `LocalStorageAdapter.KeyvLocalStorage.GetKey` | src/keyv-localStorage.ts:34-39 | the physical key starts with the namespace and `_innerKeyToKey` gives the key back; with the empty namespace it is the key itself |
| `LocalStorageAdapter.KeyvLocalStorage.InnerKeyToKey` | src/keyv-localStorage.ts:41-46 | on a physical key that starts with the namespace, `_getKey` of the result gives that key back; any other key comes back unchanged |
| `LocalStorageAdapter.KeyvLocalStorage.GetSync` | src/keyv-localStorage.ts:52-62 | `undefined` exactly when nothing is stored under `_getKey(k)` or the stored text does not parse; any other result is the value whose encoding is stored there |
| `LocalStorageAdapter.KeyvLocalStorage.HasSync` | src/keyv-localStorage.ts:108-111 | true exactly when text is stored under `_getKey(k)` and parses, so a stored `null` counts |
| `LocalStorageAdapter.KeyvLocalStorage.Get` | src/keyv-localStorage.ts:48-50 | `get` resolves to `getSync`; a defined result is the value whose encoding is stored |
| `LocalStorageAdapter.KeyvLocalStorage.Has` | src/keyv-localStorage.ts:103-106 | `has` is true exactly when `getSync` is not `undefined` |
| `LocalStorageAdapter.KeyvLocalStorage.GetMany` | src/keyv-localStorage.ts:64-66 | one result per key, and element `i` is `getSync(keys[i])` |
| `LocalStorageAdapter.KeyvLocalStorage.Set` | src/keyv-localStorage.ts:74-79 | only `_getKey(k)` changes, to the value's text; afterwards `getSync(k) == v` and every other key reads as before; `ttl` has no effect |
| `LocalStorageAdapter.KeyvLocalStorage.Delete` | src/keyv-localStorage.ts:81-87 | returns prior `hasSync(k)`; if true, exactly `_getKey(k)` is removed, otherwise the storage is unchanged; afterwards `k` is absent |
| `LocalStorageAdapter.KeyvLocalStorage.DeleteMany` | src/keyv-localStorage.ts:89-92 | the storage and result are those of `DeleteAll`, the deletes run one after another in key order (when that result is true is stated by `DeleteAllSucceedsIff`); afterwards every key outside the list reads as before and no key of the list is present |
| `LocalStorageAdapter.KeyvLocalStorage.Clear` | src/keyv-localStorage.ts:94-101 | the index walk over the live length: the result is the clear walk's, which only removes entries of the namespace with non-empty keys and keeps all others |
| `LocalStorageAdapter.KeyvLocalStorage.ClearAllMatching` | src/keyv-localStorage.ts:94-101 | corrected clear: every entry of the namespace is removed and every other entry is kept, in order |
| `LocalStorageAdapter.KeyvLocalStorage.Iterator` | src/keyv-localStorage.ts:117-127 | yields, in index order, the non-empty keys matching the filter (all of them when the filter is empty), stripped of the adapter's namespace, each with `getSync` of the stripped key; an absent filter means the adapter's namespace |
| `IndexedDBAdapter.ScanSound` | src/keyv-idb.ts:111-120 | every yielded entry is a string key of the snapshot in the namespace, with its raw stored value |
| `IndexedDBAdapter.ScanComplete` | src/keyv-idb.ts:111-120 | when no read fails, every string key of the snapshot in the namespace is yielded with its value |
| `IndexedDBAdapter.ScanFailsIff` | src/keyv-idb.ts:116-117 | the iteration ends in an error exactly when the snapshot holds an unreadable key of the namespace |
| `IndexedDBAdapter.ScanOverTable` | src/keyv-idb.ts:111-120 | over a snapshot listing every key once, the scan yields only matching keys with their stored values, fails exactly when a matching key of the store is unreadable, and otherwise yields every matching key of the store |
| `IndexedDBAdapter.KeyvIndexedDB.constructor` | src/keyv-idb.ts:30-33 | the namespace is the empty string whatever the `namespace` option says; `ttlSupport` is false |
| `IndexedDBAdapter.KeyvIndexedDB.GetKey` | src/keyv-idb.ts:34-46 | the physical key starts with the namespace and `_innerKeyToKey` gives the key back; with the empty namespace it is the key itself |
| `IndexedDBAdapter.KeyvIndexedDB.InnerKeyToKey` | src/keyv-idb.ts:41-46 | on a physical key that starts with the namespace, `_getKey` of the result gives that key back; any other key comes back unchanged |
| `IndexedDBAdapter.KeyvIndexedDB.Get` | src/keyv-idb.ts:52-62 | a defined result is exactly the stored value; the result is `undefined` exactly when the key is absent, the stored value is `null` or `undefined`, or the read rejects |
| `IndexedDBAdapter.KeyvIndexedDB.Has` | src/keyv-idb.ts:102-105 | present exactly when a readable value other than `null` and `undefined` is stored, so a stored `null` is absent |
| `IndexedDBAdapter.KeyvIndexedDB.GetMany` | src/keyv-idb.ts:64-66 | one result per key, and element `i` is `get(keys[i])` |
| `IndexedDBAdapter.KeyvIndexedDB.Set` | src/keyv-idb.ts:74-76 | the physical key maps to the value and nothing else changes; `get` then returns the value, or `undefined` for `null`; `ttl` is ignored |
| `IndexedDBAdapter.KeyvIndexedDB.Delete` | src/keyv-idb.ts:78-82 | returns prior `has(k)`; the physical key is deleted in every case, and other keys read as before |
| `IndexedDBAdapter.KeyvIndexedDB.DeleteMany` | src/keyv-idb.ts:84-87 | for distinct keys, every physical key is deleted and the result is true exactly when every key was present |
| `IndexedDBAdapter.KeyvIndexedDB.Clear` | src/keyv-idb.ts:89-100 | exactly the string keys that start with the namespace are deleted (all string keys when it is empty); non-string and other keys keep their values |
| `IndexedDBAdapter.KeyvIndexedDB.Iterator` | src/keyv-idb.ts:111-120 | the entries are the scan of a snapshot listing every key once: matching string keys in snapshot order, unstripped, with raw values, ending with an error at the first unreadable one; stated on the store itself, every entry is a matching string key with its stored value, the error happens exactly when a matching key is unreadable, and without it every matching key is yielded |

## Findings

| source | as written | input that shows it | evidently intended | confidence | as-written member | corrected member |
|---|---|---|---|---|---|---|
| src/keyv-localStorage.ts:95-99 | `clear` steps `i` forward after every `removeItem(key(i))`, while `length` shrinks with each removal | namespace "a", entries "a1" then "a2": "a1" is removed, "a2" is now at index 0, and the loop ends at index 1 | every entry of the namespace removed, the others kept | high: each pass adds 1 to `i` and removes at most one entry while `length` is read live, so of n entries at most ⌈n/2⌉ are removed whatever order the host keeps them in; not executed | `LocalStorageAdapter.ClearScanSkipsNext` | `LocalStorageAdapter.KeyvLocalStorage.ClearAllMatching` |

`Clear` itself keeps the behaviour as written, and its contract states only
what that behaviour guarantees. `ClearAllMatching` walks the entries from the
last one down, so a removal never moves an entry that is still to be
examined. Several general descriptions of the adapters say that `clear`
removes every key of the namespace. The model follows the code, which does
not guarantee that. `ClearScanKeepsHalf` bounds the loss in the model's
order: of n entries, at least n/2 (rounded down) survive the walk.

`iterator` has a related oddity, kept as written. With a filter other than
the adapter's own namespace, a matching key is stripped of the namespace
(which it usually does not carry) and its value is read with `getSync`,
that is under namespace plus key, not under the key that matched.
`ListingReadsUnderOwnNamespace` shows an entry yielded with `undefined`
although it holds a value. No intended behaviour is evident for such a
filter, so the model records this without a corrected version.

## Left out

- The browser globals are not modelled. `localStorage` and the IndexedDB database (`createStore`, lazy opening, transactions, durability) are passed to each constructor as a `Storage` or `Store` object.
- The Web Storage API leaves the order of `localStorage` keys to the host, which may change it whenever the number of keys changes. The model fixes one order: a new key goes at the end, and a removal closes the gap.
- The JSON text format is not modelled. `JSON.stringify`/`JSON.parse` is an exact round trip, plus a malformed-text state. Values are `undefined`, `null`, booleans, integers and strings. Floating point, arrays and objects are not modelled, and neither are values that `JSON.stringify` maps to `undefined` besides `undefined` itself.
- Write failures are not modelled. `setItem` exceeding the quota and `set`/`del`/`keys` rejecting in IndexedDB would propagate to the caller in the source. In the model, writes always succeed.
- Read failure in IndexedDB is modelled as a stored record that cannot be read. Any other cause of a rejected read (a failed database open, for one) is not modelled.
- Promise scheduling is not modelled. IndexedDB `getMany`, both adapters' `deleteMany` and IndexedDB `clear` fan out with `Promise.all`; the model runs the sub-operations one after another.
- IndexedDB `clear` collects delete promises in `tasks` and awaits them. The model deletes each key where it pushes the promise.
- `IndexedDBAdapter.KeyvIndexedDB.DeleteMany`: requires distinct keys. With a repeated key, the interleaving of the concurrent has-then-delete steps decides the result, and the model leaves that interleaving out.
- `iterator` is an async generator. The model returns the whole finite sequence at once, so it does not capture a caller that changes the store between two yields.
- `on` (a no-op that returns the adapter) and `disconnect` (resolves at once) have no effect and are not modelled.
- The `serialize`, `deserialize` and `dialect` options are never read and are not modelled. `dbName` and `storeName` only name the store that `createStore` opens in the IndexedDB constructor; the model receives that store as the `Store` argument.
- The `ttl === 0` reassignment in the localStorage `set` has no effect on the store, and the model leaves it out.
- The two test files only pass the adapters to an external test suite, which is not part of this model.
