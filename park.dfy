/**
  `SqliteStore`, with the SQLite table `kv (key BLOB PRIMARY KEY, value BLOB
  NOT NULL)` abstracted to a map from keys to values, together with the
  operations `KVStore` defines for every backend on top of `get` and the
  range queries (`contains`, `prefix_items`, `prefix_keys`) and the
  per-element fallback bodies of the abstract `put_many`/`delete_many`.
 */
module Park {
  import opened Wrappers
  import opened Lex
  import opened KVStore
  import opened Batching

  /** Rows per `executemany` transaction in the bulk writes. */
  const BatchSize: nat := 30000

  /** The four WHERE clauses `_range_where` can produce, as predicates on keys. */
  datatype Where =
    | Unbounded                     // no WHERE clause
    | AtLeast(lo: Key)              // WHERE key >= :key_from
    | AtMost(hi: Key)               // WHERE key <= :key_to
    | Between(lo: Key, hi: Key)     // WHERE key BETWEEN :key_from AND :key_to
  {
    /** The rows the clause lets through (BLOBs compare byte-lexically). */
    predicate Admits(k: Key) {
      match this
      case Unbounded => true
      case AtLeast(lo) => LexLe(lo, k)
      case AtMost(hi) => LexLe(k, hi)
      case Between(lo, hi) => LexLe(lo, k) && LexLe(k, hi)
    }
  }

  /**
    `_range_where`: each combination of present and absent bounds gets the
    clause that admits exactly the keys `key_from <= k <= key_to`.
   */
  function RangeWhere(keyFrom: Option<Key>, keyTo: Option<Key>): (w: Where)
    ensures forall k :: w.Admits(k) <==> InRange(keyFrom, keyTo, k)
  {
    if keyFrom.Some? && keyTo.None? then AtLeast(keyFrom.value)
    else if keyFrom.None? && keyTo.Some? then AtMost(keyTo.value)
    else if keyFrom.Some? && keyTo.Some? then Between(keyFrom.value, keyTo.value)
    else Unbounded
  }

  class SqliteStore {
    /** The rows of table `kv`. Being a map, it holds one value per key. */
    var table: map<Key, Value>

    /**
      Opening the database at a path: `existing` is the table of a park
      database already at that path (a file holding table `kv`), or None when
      no file exists, in which case the schema is created and the table
      starts empty.
     */
    constructor (existing: Option<map<Key, Value>>)
      ensures table == if existing.Some? then existing.value else map[]
    {
      if existing.None? {
        table := map[];
      } else {
        table := existing.value;
      }
    }

    /** `get(key, default)`: the stored value, or `default` for an absent key. */
    method Get(key: Key, default: Option<Value>) returns (r: Option<Value>)
      ensures key in table ==> r == Some(table[key])
      ensures key !in table ==> r == default
    {
      if key in table {
        r := Some(table[key]);
      } else {
        r := default;
      }
    }

    /**
      `KVStore.contains`: `get(key, default=None) is not None`. Stored values
      are never None, so this is exactly membership.
     */
    method Contains(key: Key) returns (b: bool)
      ensures b <==> key in table
    {
      var v := Get(key, None);
      b := v.Some?;
    }

    /** `put`: INSERT OR REPLACE, an upsert. */
    method Put(key: Key, value: Value)
      modifies this
      ensures table == old(table)[key := value]
    {
      table := table[key := value];
    }

    /** `delete`: DELETE by key; nothing happens when the key is absent. */
    method Delete(key: Key)
      modifies this
      ensures table == old(table) - {key}
    {
      table := table - {key};
    }

    /**
      The body of the abstract `KVStore.put_many`, one `put` per pair, which
      a backend reaches only through `super()`; `SqliteStore` overrides
      `put_many` and never runs it. `PutMany` is proved to end in the same state.
     */
    method DefaultPutMany(items: seq<(Key, Value)>)
      modifies this
      ensures table == PutAll(old(table), items)
    {
      var i := 0;
      while i < |items|
        invariant 0 <= i <= |items|
        invariant table == PutAll(old(table), items[..i])
      {
        assert items[..i + 1][..i] == items[..i];
        Put(items[i].0, items[i].1);
        i := i + 1;
      }
      assert items[..i] == items;
    }

    /**
      `SqliteStore.put_many`: one `executemany` of INSERT OR REPLACE per batch
      of `BatchSize` pairs, rows applied in order, committed after each batch.
      The end state is that of the default, pair-by-pair `put_many`.
     */
    method PutMany(items: seq<(Key, Value)>)
      modifies this
      ensures table == PutAll(old(table), items)
    {
      var batches := IBatch(items, BatchSize);
      var b := 0;
      while b < |batches|
        invariant 0 <= b <= |batches|
        invariant table == PutAll(old(table), Flatten(batches[..b]))
      {
        var batch := batches[b];
        ghost var done := Flatten(batches[..b]);
        assert done + batch[..0] == done;
        var j := 0;
        while j < |batch|
          invariant 0 <= j <= |batch|
          invariant table == PutAll(old(table), done + batch[..j])
        {
          assert (done + batch[..j + 1])[..|done| + j] == done + batch[..j];
          table := table[batch[j].0 := batch[j].1];
          j := j + 1;
        }
        assert batch[..j] == batch;
        assert batches[..b + 1][..b] == batches[..b];
        b := b + 1;
      }
      assert batches[..b] == batches;
    }

    /**
      The body of the abstract `KVStore.delete_many`, one `delete` per key,
      which a backend reaches only through `super()`; `SqliteStore` overrides
      `delete_many` and never runs it. `DeleteMany` is proved to end in the
      same state.
     */
    method DefaultDeleteMany(keys: seq<Key>)
      modifies this
      ensures table == DeleteAll(old(table), keys)
      ensures table == old(table) - (set k | k in keys)
    {
      var i := 0;
      while i < |keys|
        invariant 0 <= i <= |keys|
        invariant table == DeleteAll(old(table), keys[..i])
      {
        assert keys[..i + 1][..i] == keys[..i];
        Delete(keys[i]);
        i := i + 1;
      }
      assert keys[..i] == keys;
      DeleteAllRemovesListed(old(table), keys);
    }

    /**
      `SqliteStore.delete_many`: one `executemany` of DELETE per batch of
      `BatchSize` keys. The end state is that of the default `delete_many`.
     */
    method DeleteMany(keys: seq<Key>)
      modifies this
      ensures table == DeleteAll(old(table), keys)
      ensures table == old(table) - (set k | k in keys)
    {
      var batches := IBatch(keys, BatchSize);
      var b := 0;
      while b < |batches|
        invariant 0 <= b <= |batches|
        invariant table == DeleteAll(old(table), Flatten(batches[..b]))
      {
        var batch := batches[b];
        ghost var done := Flatten(batches[..b]);
        assert done + batch[..0] == done;
        var j := 0;
        while j < |batch|
          invariant 0 <= j <= |batch|
          invariant table == DeleteAll(old(table), done + batch[..j])
        {
          assert (done + batch[..j + 1])[..|done| + j] == done + batch[..j];
          table := table - {batch[j]};
          j := j + 1;
        }
        assert batch[..j] == batch;
        assert batches[..b + 1][..b] == batches[..b];
        b := b + 1;
      }
      assert batches[..b] == batches;
      DeleteAllRemovesListed(old(table), keys);
    }

    /**
      `SELECT key FROM kv <where> ORDER BY key`: the engine walks the primary
      key index in ascending order, which is taking the least remaining key
      each time.
     */
    method Scan(w: Where) returns (ks: seq<Key>)
      ensures StrictlyAscending(ks)
      ensures forall k :: k in ks <==> k in table && w.Admits(k)
    {
      var rest := set k | k in table.Keys && w.Admits(k);
      ghost var all := rest;
      ks := [];
      while rest != {}
        invariant rest <= all
        invariant forall k :: k in ks <==> k in all && k !in rest
        invariant StrictlyAscending(ks)
        invariant forall i, k :: 0 <= i < |ks| && k in rest ==> LexLt(ks[i], k)
        decreases |rest|
      {
        LeastExists(rest);
        var k :| IsLeast(k, rest);
        forall k' | k' in rest - {k}
          ensures LexLt(k, k')
        {
        }
        ks := ks + [k];
        rest := rest - {k};
      }
    }

    /**
      `keys(key_from, key_to)`: exactly the stored keys with
      `key_from <= k <= key_to`, ascending, each once.
     */
    method Keys(keyFrom: Option<Key>, keyTo: Option<Key>) returns (r: seq<Key>)
      ensures StrictlyAscending(r)
      ensures forall k :: k in r <==> k in table && InRange(keyFrom, keyTo, k)
    {
      r := Scan(RangeWhere(keyFrom, keyTo));
    }

    /**
      `items(key_from, key_to)`: the rows whose key lies in range, ascending
      by key, each key paired with its stored value.
     */
    method Items(keyFrom: Option<Key>, keyTo: Option<Key>) returns (r: seq<(Key, Value)>)
      ensures StrictlyAscending(KeysOf(r))
      ensures forall k :: k in KeysOf(r) <==> k in table && InRange(keyFrom, keyTo, k)
      ensures forall i :: 0 <= i < |r| ==> r[i].0 in table && r[i].1 == table[r[i].0]
    {
      var rows := Scan(RangeWhere(keyFrom, keyTo));
      r := [];
      for i := 0 to |rows|
        invariant |r| == i
        invariant forall j :: 0 <= j < i ==> r[j] == (rows[j], table[rows[j]])
      {
        r := r + [(rows[i], table[rows[i]])];
      }
      assert KeysOf(r) == rows;
    }

    /**
      `KVStore.prefix_keys`: scan `keys(key_from=prefix)` and stop at the
      first key that does not start with `prefix`. The result is every stored
      key that starts with `prefix`, ascending; with `stripPrefix` each comes
      without its first `|prefix|` bytes, otherwise unchanged.
     */
    method PrefixKeys(prefix: Key, stripPrefix: bool) returns (r: seq<Key>)
      ensures var full := Restore(if stripPrefix then prefix else [], r);
        && StrictlyAscending(full)
        && forall k :: k in full <==> k in table && StartsWith(k, prefix)
    {
      var ks := Keys(Some(prefix), None);
      var start := if stripPrefix then |prefix| else 0;
      r := [];
      var i := 0;
      while i < |ks|
        invariant 0 <= i <= |ks|
        invariant |r| == i
        invariant forall j :: 0 <= j < i ==> StartsWith(ks[j], prefix) && r[j] == ks[j][start..]
      {
        if !StartsWith(ks[i], prefix) {
          break;
        }
        r := r + [ks[i][start..]];
        i := i + 1;
      }
      PrefixCut(ks, prefix, table.Keys, i);
      ghost var lead: Key := if stripPrefix then prefix else [];
      assert Restore(lead, r) == ks[..i] by {
        forall j | 0 <= j < i
          ensures lead + r[j] == ks[j]
        {
          assert ks[j] == ks[j][..|prefix|] + ks[j][|prefix|..];
        }
      }
    }

    /**
      `KVStore.prefix_items`: as `PrefixKeys`, over `items(key_from=prefix)`;
      each key keeps its stored value.
     */
    method PrefixItems(prefix: Key, stripPrefix: bool) returns (r: seq<(Key, Value)>)
      ensures var full := Restore(if stripPrefix then prefix else [], KeysOf(r));
        && StrictlyAscending(full)
        && (forall k :: k in full <==> k in table && StartsWith(k, prefix))
        && forall i :: 0 <= i < |r| ==> full[i] in table && r[i].1 == table[full[i]]
    {
      var items := Items(Some(prefix), None);
      var start := if stripPrefix then |prefix| else 0;
      r := [];
      var i := 0;
      while i < |items|
        invariant 0 <= i <= |items|
        invariant |r| == i
        invariant forall j :: 0 <= j < i ==>
          StartsWith(items[j].0, prefix) && r[j] == (items[j].0[start..], items[j].1)
      {
        if !StartsWith(items[i].0, prefix) {
          break;
        }
        r := r + [(items[i].0[start..], items[i].1)];
        i := i + 1;
      }
      ghost var ks := KeysOf(items);
      PrefixCut(ks, prefix, table.Keys, i);
      ghost var lead: Key := if stripPrefix then prefix else [];
      assert Restore(lead, KeysOf(r)) == ks[..i] by {
        forall j | 0 <= j < i
          ensures lead + KeysOf(r)[j] == ks[j]
        {
          assert ks[j] == ks[j][..|prefix|] + ks[j][|prefix|..];
        }
      }
    }
  }
}
