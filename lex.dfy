/**
  Byte strings and the byte-lexical order in which the store keeps its keys.

  Keys and values are opaque byte strings; SQLite compares BLOB keys
  byte by byte as unsigned values, and a proper prefix sorts before
  its extensions ("a" < "ab" < "b").
 */
module Lex {

  /** An unsigned byte. */
  newtype byte = b: int | 0 <= b < 0x100

  type Bytes = seq<byte>

  /** `a <= b` in byte-lexical order. */
  predicate LexLe(a: Bytes, b: Bytes)
    decreases |a|
  {
    |a| == 0 || (|b| > 0 && (a[0] < b[0] || (a[0] == b[0] && LexLe(a[1..], b[1..]))))
  }

  /** `a < b` in byte-lexical order. */
  predicate LexLt(a: Bytes, b: Bytes) {
    LexLe(a, b) && a != b
  }

  /** Python's `k.startswith(p)`. */
  predicate StartsWith(k: Bytes, p: Bytes) {
    |p| <= |k| && k[..|p|] == p
  }

  /**
    The comparison SQLite applies to BLOBs, written independently of LexLe:
    the first differing byte of the common part decides, and when there is
    none the shorter string comes first.
   */
  ghost predicate MemcmpLe(a: Bytes, b: Bytes) {
    || (exists i :: 0 <= i < |a| && i < |b| && a[..i] == b[..i] && a[i] < b[i])
    || StartsWith(b, a)
  }

  lemma {:induction false} LexLeReflexive(a: Bytes)
    ensures LexLe(a, a)
    decreases |a|
  {
    if |a| > 0 {
      LexLeReflexive(a[1..]);
    }
  }

  lemma {:induction false} LexLeAntisymmetric(a: Bytes, b: Bytes)
    requires LexLe(a, b) && LexLe(b, a)
    ensures a == b
    decreases |a|
  {
    if |a| > 0 {
      LexLeAntisymmetric(a[1..], b[1..]);
      assert a == [a[0]] + a[1..];
      assert b == [b[0]] + b[1..];
    }
  }

  lemma {:induction false} LexLeTransitive(a: Bytes, b: Bytes, c: Bytes)
    requires LexLe(a, b) && LexLe(b, c)
    ensures LexLe(a, c)
    decreases |a|
  {
    if |a| > 0 && a[0] == c[0] {
      LexLeTransitive(a[1..], b[1..], c[1..]);
    }
  }

  lemma {:induction false} LexLeTotal(a: Bytes, b: Bytes)
    ensures LexLe(a, b) || LexLe(b, a)
    decreases |a|
  {
    if |a| > 0 && |b| > 0 && a[0] == b[0] {
      LexLeTotal(a[1..], b[1..]);
    }
  }

  /** Peeling one byte off a key and its prefix. */
  lemma StartsWithCons(k: Bytes, p: Bytes)
    requires |p| > 0 && |k| > 0
    ensures StartsWith(k, p) <==> k[0] == p[0] && StartsWith(k[1..], p[1..])
  {
    if StartsWith(k, p) {
      assert k[0] == k[..|p|][0];
      assert k[1..][..|p| - 1] == k[..|p|][1..];
    }
    if k[0] == p[0] && StartsWith(k[1..], p[1..]) {
      assert k[..|p|] == [k[0]] + k[1..][..|p| - 1];
      assert p == [p[0]] + p[1..];
    }
  }

  /** A prefix sorts no later than every key that starts with it. */
  lemma {:induction false} PrefixIsLeast(p: Bytes, k: Bytes)
    requires StartsWith(k, p)
    ensures LexLe(p, k)
    decreases |p|
  {
    if |p| > 0 {
      StartsWithCons(k, p);
      PrefixIsLeast(p[1..], k[1..]);
    }
  }

  /**
    The keys that start with `p` are contiguous: anything lying between `p`
    and a key that starts with `p` starts with `p` as well.
   */
  lemma {:induction false} PrefixContiguous(p: Bytes, j: Bytes, k: Bytes)
    requires StartsWith(k, p)
    requires LexLe(p, j) && LexLe(j, k)
    ensures StartsWith(j, p)
    decreases |p|
  {
    if |p| > 0 {
      StartsWithCons(k, p);
      assert |j| > 0 && j[0] == p[0];
      PrefixContiguous(p[1..], j[1..], k[1..]);
      StartsWithCons(j, p);
    }
  }

  /** LexLe is exactly SQLite's BLOB comparison. */
  lemma {:induction false} LexLeIsMemcmp(a: Bytes, b: Bytes)
    ensures LexLe(a, b) <==> MemcmpLe(a, b)
    decreases |a|
  {
    if |a| == 0 {
      assert StartsWith(b, a);
    } else if |b| == 0 {
      assert !StartsWith(b, a);
    } else {
      StartsWithCons(b, a);
      if a[0] < b[0] {
        assert a[..0] == b[..0];
      } else if a[0] == b[0] {
        LexLeIsMemcmp(a[1..], b[1..]);
        if LexLe(a[1..], b[1..]) && !StartsWith(b[1..], a[1..]) {
          var i :| 0 <= i < |a| - 1 && i < |b| - 1 && a[1..][..i] == b[1..][..i] && a[1..][i] < b[1..][i];
          assert a[..i + 1] == [a[0]] + a[1..][..i];
          assert b[..i + 1] == [b[0]] + b[1..][..i];
          assert a[i + 1] < b[i + 1];
        }
        if MemcmpLe(a, b) && !StartsWith(b, a) {
          var i :| 0 <= i < |a| && i < |b| && a[..i] == b[..i] && a[i] < b[i];
          assert i > 0;
          assert a[1..][..i - 1] == a[..i][1..];
          assert b[1..][..i - 1] == b[..i][1..];
          assert a[1..][i - 1] < b[1..][i - 1];
        }
      }
    }
  }
}
