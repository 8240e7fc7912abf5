# park — an ordered key-value store, modelled in Dafny

park is a persistent key-value store over opaque byte strings. It iterates
keys in byte-lexical order. It has two layers:

- `KVStore`: the abstract interface (`get`, `put`, `put_many`, `delete`,
  `delete_many`, `keys`, `items`). It also gives every backend the derived
  operations `contains`, `prefix_keys` and `prefix_items`. `put_many` and
  `delete_many` are abstract too, but each carries a fallback body that
  applies one `put`/`delete` per element. A backend runs it only by calling
  it through `super()`.
- `SqliteStore`: the backend, one SQLite table
  `kv (key BLOB PRIMARY KEY, value BLOB NOT NULL)`. Bulk writes are cut into
  transactions of 30000 rows by the `ibatch` helper. Range queries are
  `SELECT … ORDER BY key` with one of four WHERE clauses built by
  `_range_where`.

The model keeps the table as a `map<Key, Value>` field of a class
`SqliteStore`. Keys and values are `seq<byte>`, ordered by `Lex.LexLe`.
The files are:

- `lex.dfy` (module `Lex`): bytes and the byte-lexical order. It proves
  that the order is a total order and that it is SQLite's BLOB comparison
  (memcmp over the common part, then the shorter string first). It also
  proves the two facts the prefix scan rests on: a prefix sorts before
  every key that starts with it, and the keys sharing a prefix are
  contiguous.
- `batching.dfy` (module `Batching`): `ibatch` as a method that returns its
  batches, proved to partition its input.
- `kvstore.dfy` (module `KVStore`): the contract stated over values. It
  defines range membership and ascending order. It defines `PutAll` and
  `DeleteAll`, the end state of applying `put`/`delete` element by element,
  with lemmas for last-write-wins and exact deletion. It proves that a
  range result is determined by its key set, and proves the prefix-cut
  lemma that justifies the early `break`.
- `park.dfy` (module `Park`): `_range_where` as a datatype of four clauses
  and class `SqliteStore`. The class holds every operation of the backend,
  the `KVStore` operations it inherits, and the fallback bodies of
  `put_many`/`delete_many`. Each method's `ensures` gives the
  new table, or the exact result, in terms of the contract.
- `session.dfy` (module `Session`): client code that uses only the
  contracts. It shows that a second `put` replaces the first and that a
  repeated `delete` is harmless. For a store holding "a", "ab" and "b", it
  shows that the range and prefix queries return exactly `["a","ab","b"]`,
  `["ab","b"]`, `["a"]`, `["a","ab"]` and, with stripping, `["","b"]`.

## Model

| member | source | states |
|---|---|---|
| `Lex.LexLeReflexive` | park.py:115-128 | every key is `<=` itself in the order `keys` sorts by |
| `Lex.LexLeAntisymmetric` | park.py:115-128 | two keys each `<=` the other are equal, so the sort order has no ties |
| `Lex.LexLeTransitive` | park.py:115-128 | the byte-lexical order is transitive |
| `Lex.LexLeTotal` | park.py:115-128 | any two keys are comparable, so "lexically sorted" is well defined |
| `Lex.LexLeIsMemcmp` | park.py:216-230 | the order is exactly BLOB comparison: the first differing byte decides, otherwise the shorter key comes first |
| `Lex.PrefixIsLeast` | park.py:182-191 | every key starting with `prefix` is `>= prefix`, so a scan from `key_from=prefix` sees all of them |
| `Lex.PrefixContiguous` | park.py:188-190 | a key lying between `prefix` and a key that starts with `prefix` starts with `prefix` too |
| `Batching.IBatch` | park.py:194-199 | for a positive size the batches concatenate to the input; each is non-empty with at most `size` elements; all but the last have exactly `size`; an empty input or a zero size yields no batch |
| `KVStore.AscendingUnique` | park.py:115-144 | two strictly ascending key sequences with the same keys are equal, so "all keys in range, sorted" fixes the result |
| `KVStore.LeastExists` | park.py:352-364 | every non-empty set of stored keys has a least key, so an `ORDER BY key` traversal can always continue |
| `KVStore.PrefixCut` | park.py:146-191 | if a scan over the keys `>= p` stops at the first key not starting with `p`, the keys before that point are exactly the stored keys starting with `p` |
| `KVStore.PutAllAppend` | park.py:299-308 | putting one list and then another is putting their concatenation, so batched puts equal one pass over all pairs |
| `KVStore.PutAllLastWins` | park.py:81-93 | after a bulk put, a key maps to the value of its last pair in the sequence |
| `KVStore.PutAllUntouched` | park.py:81-93 | after a bulk put, a key that no pair mentions keeps its old value, or stays absent |
| `KVStore.DeleteAllRemovesListed` | park.py:105-113 | deleting keys one by one removes exactly the listed keys, in any order and with repeats, and keeps every other entry |
| `Park.RangeWhere` | park.py:326-336 | the clause chosen for each of the four present/absent bound combinations admits exactly the keys with `key_from <= k <= key_to`, a `None` bound being open |
| `Park.SqliteStore.constructor` | park.py:242-266 | a store over an existing park database (a file that already holds table `kv`) has that file's table; when no file exists the schema is created and the table is empty |
| `Park.SqliteStore.Get` | park.py:284-292 | a stored key returns its value; an absent key returns the caller's `default` without failing |
| `Park.SqliteStore.Contains` | park.py:45-47 | `get(key, None) is not None` holds exactly when the key is stored, because stored values are never None |
| `Park.SqliteStore.Put` | park.py:294-297 | upsert: the key now maps to the new value and every other entry is unchanged |
| `Park.SqliteStore.Delete` | park.py:310-313 | the key is absent afterwards, every other entry is unchanged, and an absent key leaves the table as it was |
| `Park.SqliteStore.DefaultPutMany` | park.py:80-93 | the fallback body of the abstract `put_many`, one `put` per pair in order, ends in `PutAll(old table, items)` |
| `Park.SqliteStore.PutMany` | park.py:299-308 | the override, cut into `ibatch` batches of 30000 rows each run by `executemany`, ends in the same state as the one-`put`-per-pair fallback |
| `Park.SqliteStore.DefaultDeleteMany` | park.py:105-113 | the fallback body of the abstract `delete_many`, one `delete` per key, ends in the old table minus the listed keys |
| `Park.SqliteStore.DeleteMany` | park.py:315-324 | the batched override ends in the same state as the one-`delete`-per-key fallback |
| `Park.SqliteStore.Scan` | park.py:348-349 | the `SELECT … ORDER BY key` traversal yields the rows its WHERE clause admits, strictly ascending |
| `Park.SqliteStore.Keys` | park.py:352-364 | `keys(key_from, key_to)` yields exactly the stored keys in the inclusive range, strictly ascending |
| `Park.SqliteStore.Items` | park.py:338-350 | `items(key_from, key_to)` yields the in-range rows strictly ascending by key, each key with its stored value |
| `Park.SqliteStore.PrefixKeys` | park.py:170-191 | with the prefix put back when `strip_prefix` is set (and nothing put back otherwise), the result is exactly the stored keys starting with `prefix`, strictly ascending |
| `Park.SqliteStore.PrefixItems` | park.py:146-168 | as `PrefixKeys`, and each yielded value is the stored value of its full key |
| `Session.UpsertReplaces` | park.py:64-78 | after `put(k, v1)` and `put(k, v2)`, `get(k)` returns `v2`, `k` has one entry (`v2`) and every other entry is as before |
| `Session.DeleteIsIdempotent` | park.py:95-103 | after `delete(k)` twice, `get(k, default)` returns `default`, `contains(k)` is false, and only `k` was removed |
| `Session.RangeSession` | park.py:115-144 | over "a", "ab", "b": `keys()` is `["a","ab","b"]`, `keys(key_from="ab")` is `["ab","b"]` and `keys(key_to="a")` is `["a"]` |
| `Session.PrefixSession` | park.py:170-191 | over "a", "ab", "b": `prefix_keys("a")` is `["a","ab"]` |
| `Session.StripSession` | park.py:184-191 | over "a", "ab", "b": `prefix_keys("a", strip_prefix=True)` is `["","b"]` |

## Left out

- The SQLite connection, the PRAGMA settings (cache size, page size, WAL or truncate journal, `temp_store`, `synchronous=OFF`) and the `CREATE TABLE` text (park.py:242-266, park.py:273-282). These are calls into the engine. The model keeps the table's contents as a map, and `os.path.exists` becomes the constructor's `existing` argument.
- `Park.SqliteStore.constructor`: the schema is created only when no file exists at the path (park.py:243, park.py:265-266). An existing file without a `kv` table, such as an empty file or another program's SQLite database, gets no schema, and every later operation then fails with "no such table: kv". That case is not modelled. `existing` stands for a file that already holds table `kv`.
- `commit`, `close` and the context-manager protocol (park.py:22-43, park.py:268-271). These manage resources and durability. A commit changes nothing that a later operation on the same handle can observe. Persistence across a close and a reopen is modelled only by passing the old table to the constructor.
- `sqlite3.Binary`, `buffer` and the `bytes(...)` conversions. These are type plumbing. Keys and values are byte sequences throughout.
- The SQL text that `_range_where` returns. The model returns the clause as a `Where` value with the predicate it stands for.
- Laziness. `keys`, `items`, `prefix_keys`, `prefix_items` and `ibatch` are generators. The model returns finished sequences, so open cursors and writes made while a result is still being iterated are not modelled.
- `Batching.IBatch`: the batches share one source iterator, so a batch left half-read would move the start of the next one. Both callers read every batch to the end, so the model materialises each batch. `size` is a `nat`, so two cases of `islice` (park.py:198) are not modelled: a negative size, which raises `ValueError`, and `size=None`, which yields one batch holding everything. The only callers pass 30000.
- `Park.SqliteStore.Scan`: it stands for the engine's ascending walk of the primary-key index. It takes the least remaining key each round. SQLite's B-tree is not modelled.
- `Park.SqliteStore.Get`: `default` is an optional byte string. A `default` of any other Python type is not modelled.
- `Park.SqliteStore.PutMany` and `Park.SqliteStore.DeleteMany`: no operation fails in the model, so a failure after some batches have committed is not modelled. Neither is concurrent access from another handle.
- The class hierarchy. The model has no traits, so the operations `KVStore` defines for every backend (`contains`, `prefix_items`, `prefix_keys`) are methods of `SqliteStore` that call its `get`, `items` and `keys`. `put_many` and `delete_many` are abstract (park.py:19, park.py:80, park.py:105), yet each has a per-element fallback body (park.py:92-93, park.py:112-113) that a backend reaches only through `super()`. `DefaultPutMany` and `DefaultDeleteMany` model those bodies; `SqliteStore` overrides both methods and never runs them. The other abstract methods hold only a docstring or `pass`, so there is nothing of theirs to model beyond `SqliteStore`'s own definitions.
- The module logger, `__version__` and `setup.py`. These are logging and packaging.
