/**
  The `KVStore` contract stated over values: a store's contents are a map
  from byte keys to byte values, range results are strictly ascending in
  byte-lexical order, and the bulk writes are folds of the single writes.
 */
module KVStore {
  import opened Wrappers
  import opened Lex

  type Key = Bytes
  type Value = Bytes

  /** `key_from <= k <= key_to`, a `None` bound being open on its side. */
  predicate InRange(keyFrom: Option<Key>, keyTo: Option<Key>, k: Key) {
    (keyFrom.None? || LexLe(keyFrom.value, k)) && (keyTo.None? || LexLe(k, keyTo.value))
  }

  /** Ascending byte-lexical order, hence no key twice. */
  predicate StrictlyAscending(ks: seq<Key>) {
    forall i, j :: 0 <= i < j < |ks| ==> LexLt(ks[i], ks[j])
  }

  /** The keys of a sequence of (key, value) rows. */
  function KeysOf(items: seq<(Key, Value)>): (ks: seq<Key>) {
    seq(|items|, i requires 0 <= i < |items| => items[i].0)
  }

  /** Each key with `lead` put back in front of it (what `strip_prefix` took off). */
  function Restore(lead: Key, ks: seq<Key>): (full: seq<Key>) {
    seq(|ks|, i requires 0 <= i < |ks| => lead + ks[i])
  }

  /** `k` is the first key of `s` in byte-lexical order. */
  predicate IsLeast(k: Key, s: set<Key>) {
    k in s && forall j :: j in s ==> LexLe(k, j)
  }

  /** Every non-empty finite set of keys has a first key. */
  lemma {:induction false} LeastExists(s: set<Key>)
    requires s != {}
    ensures exists k :: IsLeast(k, s)
    decreases |s|
  {
    var x :| x in s;
    if s == {x} {
      LexLeReflexive(x);
      assert IsLeast(x, s);
    } else {
      var rest := s - {x};
      assert rest != {} by {
        var z :| z in s && z != x;
        assert z in rest;
      }
      LeastExists(rest);
      var y :| IsLeast(y, rest);
      LexLeTotal(x, y);
      if LexLe(x, y) {
        forall j | j in s
          ensures LexLe(x, j)
        {
          if j == x {
            LexLeReflexive(x);
          } else {
            LexLeTransitive(x, y, j);
          }
        }
        assert IsLeast(x, s);
      } else {
        assert IsLeast(y, s);
      }
    }
  }

  /**
    The first element of a non-empty sequence is one of its elements.
    Stated apart so that the impossible case of AscendingUnique can name
    `ks[0]` without checking an index there.
   */
  lemma HeadIsMember(ks: seq<Key>)
    requires ks != []
    ensures ks[0] in ks
  {
  }

  /**
    A range result is determined by its set of keys: two strictly ascending
    sequences holding the same keys are the same sequence.
   */
  lemma {:induction false} AscendingUnique(a: seq<Key>, b: seq<Key>)
    requires StrictlyAscending(a) && StrictlyAscending(b)
    requires forall k :: k in a <==> k in b
    ensures a == b
    decreases |a|
  {
    if a == [] {
      if b != [] {
        HeadIsMember(b);
        assert false;
      }
    } else {
      assert b != [] by {
        assert a[0] in b;
      }
      assert b[0] in a;
      var i :| 0 <= i < |a| && a[i] == b[0];
      if i > 0 {
        assert LexLt(a[0], a[i]);
      } else {
        LexLeReflexive(a[0]);
      }
      assert a[0] in b;
      var j :| 0 <= j < |b| && b[j] == a[0];
      if j > 0 {
        assert LexLt(b[0], b[j]);
      } else {
        LexLeReflexive(b[0]);
      }
      LexLeAntisymmetric(a[0], b[0]);
      forall k
        ensures k in a[1..] <==> k in b[1..]
      {
        if k in a[1..] {
          var m :| 0 <= m < |a| - 1 && a[1..][m] == k;
          assert LexLt(a[0], a[m + 1]);
          assert k in b;
          var m' :| 0 <= m' < |b| && b[m'] == k;
          assert m' != 0;
          assert b[1..][m' - 1] == k;
        }
        if k in b[1..] {
          var m :| 0 <= m < |b| - 1 && b[1..][m] == k;
          assert LexLt(b[0], b[m + 1]);
          assert k in a;
          var m' :| 0 <= m' < |a| && a[m'] == k;
          assert m' != 0;
          assert a[1..][m' - 1] == k;
        }
      }
      AscendingUnique(a[1..], b[1..]);
      assert a == [a[0]] + a[1..];
      assert b == [b[0]] + b[1..];
    }
  }

  /**
    Why `prefix_keys`/`prefix_items` may stop at the first key that does not
    start with `p`: when `ks` lists, in ascending order, exactly the keys of
    `s` that are `>= p`, and the first `i` of them start with `p` while
    `ks[i]` does not, then `ks[..i]` holds exactly the keys of `s` that start
    with `p`.
   */
  lemma PrefixCut(ks: seq<Key>, p: Key, s: set<Key>, i: nat)
    requires StrictlyAscending(ks)
    requires forall k :: k in ks <==> k in s && LexLe(p, k)
    requires i <= |ks|
    requires forall j :: 0 <= j < i ==> StartsWith(ks[j], p)
    requires i < |ks| ==> !StartsWith(ks[i], p)
    ensures forall k :: k in ks[..i] <==> k in s && StartsWith(k, p)
  {
    forall k
      ensures k in ks[..i] <==> k in s && StartsWith(k, p)
    {
      if k in s && StartsWith(k, p) {
        PrefixIsLeast(p, k);
        var j :| 0 <= j < |ks| && ks[j] == k;
        assert j < i by {
          if i < j {
            assert LexLt(ks[i], ks[j]);
            PrefixContiguous(p, ks[i], k);
          }
        }
        assert ks[..i][j] == k;
      }
    }
  }

  /** `put_many` as the caller sees it: `put` applied to each pair in order. */
  function PutAll(m: map<Key, Value>, items: seq<(Key, Value)>): (m': map<Key, Value>)
    decreases |items|
  {
    if items == [] then m
    else
      var n := |items| - 1;
      PutAll(m, items[..n])[items[n].0 := items[n].1]
  }

  /** `delete_many` as the caller sees it: `delete` applied to each key in order. */
  function DeleteAll(m: map<Key, Value>, keys: seq<Key>): (m': map<Key, Value>)
    decreases |keys|
  {
    if keys == [] then m
    else
      var n := |keys| - 1;
      DeleteAll(m, keys[..n]) - {keys[n]}
  }

  /** Putting one list after another is putting their concatenation. */
  lemma {:induction false} PutAllAppend(m: map<Key, Value>, xs: seq<(Key, Value)>, ys: seq<(Key, Value)>)
    ensures PutAll(m, xs + ys) == PutAll(PutAll(m, xs), ys)
    decreases |ys|
  {
    if ys == [] {
      assert xs + ys == xs;
    } else {
      var n := |ys| - 1;
      var zs := xs + ys;
      assert zs != [] && |zs| - 1 == |xs| + n;
      assert zs[..|xs| + n] == xs + ys[..n];
      assert zs[|xs| + n] == ys[n];
      PutAllAppend(m, xs, ys[..n]);
      calc {
        PutAll(m, zs);
        PutAll(m, zs[..|xs| + n])[ys[n].0 := ys[n].1];
        PutAll(m, xs + ys[..n])[ys[n].0 := ys[n].1];
        PutAll(PutAll(m, xs), ys[..n])[ys[n].0 := ys[n].1];
        PutAll(PutAll(m, xs), ys);
      }
    }
  }

  /** In a bulk put, the last pair for a key wins. */
  lemma {:induction false} PutAllLastWins(m: map<Key, Value>, items: seq<(Key, Value)>, i: nat)
    requires i < |items|
    requires forall j :: i < j < |items| ==> items[j].0 != items[i].0
    ensures items[i].0 in PutAll(m, items)
    ensures PutAll(m, items)[items[i].0] == items[i].1
    decreases |items|
  {
    var n := |items| - 1;
    if i < n {
      assert items[..n][i] == items[i];
      PutAllLastWins(m, items[..n], i);
    }
  }

  /** A key that no pair mentions keeps its old entry, or its absence. */
  lemma {:induction false} PutAllUntouched(m: map<Key, Value>, items: seq<(Key, Value)>, k: Key)
    requires forall j :: 0 <= j < |items| ==> items[j].0 != k
    ensures k in PutAll(m, items) <==> k in m
    ensures k in m ==> PutAll(m, items)[k] == m[k]
    decreases |items|
  {
    if items != [] {
      var n := |items| - 1;
      PutAllUntouched(m, items[..n], k);
    }
  }

  /**
    A bulk delete removes exactly the listed keys, whatever their order or
    repetitions, and leaves every other entry as it was.
   */
  lemma {:induction false} DeleteAllRemovesListed(m: map<Key, Value>, keys: seq<Key>)
    ensures DeleteAll(m, keys) == m - (set k | k in keys)
    decreases |keys|
  {
    if keys != [] {
      var n := |keys| - 1;
      DeleteAllRemovesListed(m, keys[..n]);
      assert keys == keys[..n] + [keys[n]];
      assert (set k | k in keys) == (set k | k in keys[..n]) + {keys[n]};
    }
  }
}
