/**
  Client sessions against `SqliteStore` that use nothing but the store's
  contracts, showing that those contracts determine what a caller gets back.
 */
module Session {
  import opened Wrappers
  import opened Lex
  import opened KVStore
  import opened Park

  /** A second `put` to the same key replaces the value; `get` sees the last one. */
  method UpsertReplaces(s: SqliteStore, k: Key, v1: Value, v2: Value) returns (r: Option<Value>)
    modifies s
    ensures r == Some(v2)
    ensures s.table == old(s.table)[k := v2]
  {
    s.Put(k, v1);
    s.Put(k, v2);
    r := s.Get(k, None);
  }

  /**
    `delete` makes the key absent, so `get` falls back to the caller's
    default; deleting again changes nothing.
   */
  method DeleteIsIdempotent(s: SqliteStore, k: Key, default: Option<Value>) returns (r: Option<Value>, present: bool)
    modifies s
    ensures r == default && !present
    ensures s.table == old(s.table) - {k}
  {
    s.Delete(k);
    ghost var once := s.table;
    s.Delete(k);
    assert s.table == once;
    r := s.Get(k, default);
    present := s.Contains(k);
  }

  /** The keys "a", "ab" and "b". */
  const A: Key := [97]
  const AB: Key := [97, 98]
  const B: Key := [98]

  /** "a" < "ab" < "b", and which of them start with "a". */
  lemma ExampleKeysOrdered()
    ensures LexLt(A, AB) && LexLt(AB, B) && LexLt(A, B)
    ensures !LexLe(AB, A) && !LexLe(B, A) && LexLe(A, A)
    ensures StartsWith(A, A) && StartsWith(AB, A) && !StartsWith(B, A)
  {
    LexLeReflexive(A);
  }

  /** Puts "a", "ab" and "b" into a new store. */
  method ExampleStore() returns (s: SqliteStore)
    ensures fresh(s)
    ensures s.table.Keys == {A, AB, B}
  {
    s := new SqliteStore(None);
    s.Put(A, [49]);
    s.Put(AB, [50]);
    s.Put(B, [51]);
  }

  /** Put "a", "ab", "b", then range queries unbounded and bounded on either side. */
  method RangeSession() returns (all: seq<Key>, fromAb: seq<Key>, toA: seq<Key>)
    ensures all == [A, AB, B]
    ensures fromAb == [AB, B]
    ensures toA == [A]
  {
    var s := ExampleStore();
    ExampleKeysOrdered();
    all := s.Keys(None, None);
    AscendingUnique(all, [A, AB, B]);
    fromAb := s.Keys(Some(AB), None);
    AscendingUnique(fromAb, [AB, B]);
    toA := s.Keys(None, Some(A));
    AscendingUnique(toA, [A]);
  }

  /** Put "a", "ab", "b", then `prefix_keys("a")`. */
  method PrefixSession() returns (underA: seq<Key>)
    ensures underA == [A, AB]
  {
    var s := ExampleStore();
    ExampleKeysOrdered();
    underA := s.PrefixKeys(A, false);
    forall j | 0 <= j < |underA|
      ensures Restore([], underA)[j] == underA[j]
    {
      assert [] + underA[j] == underA[j];
    }
    assert Restore([], underA) == underA;
    forall k: Key
      ensures k in underA <==> k in [A, AB]
    {
      assert k in s.table <==> k in s.table.Keys;
      if k in underA {
        assert k in s.table.Keys && StartsWith(k, A);
        assert k != B;
      }
      if k == A || k == AB {
        assert k in Restore([], underA);
      }
    }
    AscendingUnique(underA, [A, AB]);
  }

  /** Put "a", "ab", "b", then `prefix_keys("a", strip_prefix=True)`: stripping "a" leaves "" and "b". */
  method StripSession() returns (stripped: seq<Key>)
    ensures stripped == [[], B]
  {
    var s := ExampleStore();
    ExampleKeysOrdered();
    stripped := s.PrefixKeys(A, true);
    var full := Restore(A, stripped);
    forall k: Key
      ensures k in full <==> k in [A, AB]
    {
      assert k in s.table <==> k in s.table.Keys;
      if k in full {
        assert k in s.table.Keys && StartsWith(k, A);
        assert k != B;
      }
      if k == A || k == AB {
        assert k in full;
      }
    }
    AscendingUnique(full, [A, AB]);
    assert stripped[0] == full[0][1..];
    assert stripped[1] == full[1][1..];
  }
}
