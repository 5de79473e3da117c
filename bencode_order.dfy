/**
 * Byte-string order used by the bencode encoder to emit dictionary keys:
 * Rust's `Ord` on `Vec<u8>`, that is lexicographic order on bytes with a
 * proper prefix ordered before any of its extensions.
 */
module BencodeOrder {
  import opened Numeric

  type Bytes = seq<byte>

  /** `a` sorts strictly before `b`. */
  predicate LexLess(a: Bytes, b: Bytes)
  {
    if a == [] then b != []
    else if b == [] then false
    else a[0] < b[0] || (a[0] == b[0] && LexLess(a[1..], b[1..]))
  }

  lemma {:induction false} LexIrreflexive(a: Bytes)
    ensures !LexLess(a, a)
  {
    if a != [] {
      LexIrreflexive(a[1..]);
    }
  }

  lemma {:induction false} LexAsymmetric(a: Bytes, b: Bytes)
    requires LexLess(a, b)
    ensures !LexLess(b, a)
  {
    if a != [] && b != [] && a[0] == b[0] {
      LexAsymmetric(a[1..], b[1..]);
    }
  }

  lemma {:induction false} LexTransitive(a: Bytes, b: Bytes, c: Bytes)
    requires LexLess(a, b) && LexLess(b, c)
    ensures LexLess(a, c)
  {
    if a != [] && a[0] == b[0] && b[0] == c[0] {
      LexTransitive(a[1..], b[1..], c[1..]);
    }
  }

  /** Any two different byte strings are ordered one way or the other. */
  lemma {:induction false} LexTotal(a: Bytes, b: Bytes)
    requires a != b
    ensures LexLess(a, b) || LexLess(b, a)
  {
    if a != [] && b != [] && a[0] == b[0] {
      assert a == [a[0]] + a[1..] && b == [b[0]] + b[1..];
      LexTotal(a[1..], b[1..]);
    }
  }

  /** "Not after" is transitive: the form the sorting loop needs. */
  lemma LexNotLessTransitive(a: Bytes, b: Bytes, c: Bytes)
    requires !LexLess(b, a) && !LexLess(c, b)
    ensures !LexLess(c, a)
  {
    if LexLess(c, a) {
      if a == b {
      } else {
        LexTotal(a, b);
        LexTransitive(c, a, b);
      }
    }
  }

  /** Each element strictly before every later one. */
  predicate StrictlySorted(ks: seq<Bytes>)
  {
    forall p, q :: 0 <= p < q < |ks| ==> LexLess(ks[p], ks[q])
  }

  /** No element after a later one (duplicates allowed). */
  predicate Sorted(ks: seq<Bytes>)
  {
    forall p, q :: 0 <= p < q < |ks| ==> !LexLess(ks[q], ks[p])
  }

  predicate Distinct(ks: seq<Bytes>)
  {
    forall p, q :: 0 <= p < q < |ks| ==> ks[p] != ks[q]
  }

  ghost predicate IsLeast(k: Bytes, keys: set<Bytes>)
  {
    k in keys && forall j :: j in keys && j != k ==> LexLess(k, j)
  }

  lemma {:induction false} LeastExists(keys: set<Bytes>)
    requires keys != {}
    ensures exists k :: IsLeast(k, keys)
    decreases keys
  {
    var x :| x in keys;
    if keys != {x} {
      LeastExists(keys - {x});
      var m :| IsLeast(m, keys - {x});
      LexTotal(x, m);
      if LexLess(x, m) {
        forall j | j in keys && j != x
          ensures LexLess(x, j)
        {
          if j != m {
            LexTransitive(x, m, j);
          }
        }
        assert IsLeast(x, keys);
      } else {
        assert IsLeast(m, keys);
      }
    } else {
      assert IsLeast(x, keys);
    }
  }

  /**
   * The keys of a dictionary in the order the encoder writes them: every key
   * exactly once, strictly ascending.
   */
  ghost function SortedKeys(keys: set<Bytes>): (ks: seq<Bytes>)
    ensures forall k :: k in ks <==> k in keys
    ensures |ks| == |keys|
    ensures StrictlySorted(ks)
    decreases keys
  {
    if keys == {} then []
    else
      LeastExists(keys);
      var k :| IsLeast(k, keys);
      [k] + SortedKeys(keys - {k})
  }

  /** The first key written is the least one, and the rest follow in the same order. */
  lemma SortedKeysUnfold(keys: set<Bytes>)
    requires keys != {}
    ensures SortedKeys(keys) != []
    ensures IsLeast(SortedKeys(keys)[0], keys)
    ensures SortedKeys(keys)[1..] == SortedKeys(keys - {SortedKeys(keys)[0]})
  {
  }

  lemma LeastUnique(a: Bytes, b: Bytes, keys: set<Bytes>)
    requires IsLeast(a, keys) && IsLeast(b, keys)
    ensures a == b
  {
    if a != b {
      LexAsymmetric(a, b);
    }
  }

  /** The head of a strictly ascending listing of `keys` is their least element. */
  lemma HeadIsLeast(ks: seq<Bytes>, keys: set<Bytes>)
    requires StrictlySorted(ks) && ks != []
    requires forall k :: k in ks <==> k in keys
    ensures IsLeast(ks[0], keys)
    ensures forall x :: x in ks[1..] <==> x in keys - {ks[0]}
  {
    assert ks[0] in ks;
    forall x
      ensures x in ks[1..] <==> x in keys - {ks[0]}
    {
      if x in ks[1..] {
        var p :| 1 <= p < |ks| && ks[p] == x;
        if x == ks[0] {
          LexIrreflexive(x);
        }
      }
      if x in keys - {ks[0]} {
        var p :| 0 <= p < |ks| && ks[p] == x;
        assert x == ks[1..][p - 1];
      }
    }
  }

  /**
   * Only one strictly ascending sequence lists a given set of keys, so the
   * encoder's output cannot depend on the order in which it met the keys.
   */
  lemma {:induction false} SortedKeysUnique(ks: seq<Bytes>, keys: set<Bytes>)
    requires StrictlySorted(ks)
    requires forall k :: k in ks <==> k in keys
    ensures ks == SortedKeys(keys)
    decreases keys
  {
    assert ks != [] ==> ks[0] in keys;
    if keys != {} {
      assert ks != [] by {
        var x :| x in keys;
        assert x in ks;
      }
      var s := SortedKeys(keys);
      HeadIsLeast(ks, keys);
      SortedKeysUnfold(keys);
      LeastUnique(ks[0], s[0], keys);
      StrictlySortedTail(ks);
      SortedKeysUnique(ks[1..], keys - {ks[0]});
      assert ks == [ks[0]] + ks[1..];
      assert s == [s[0]] + s[1..];
    }
  }

  lemma StrictlySortedTail(ks: seq<Bytes>)
    requires StrictlySorted(ks) && ks != []
    ensures StrictlySorted(ks[1..])
  {
    forall p, q | 0 <= p < q < |ks| - 1
      ensures LexLess(ks[1..][p], ks[1..][q])
    {
      assert ks[1..][p] == ks[p + 1] && ks[1..][q] == ks[q + 1];
    }
  }

  /** A key occurs at most once in a sequence without repetitions. */
  lemma {:induction false} DistinctCount(t: seq<Bytes>, x: Bytes)
    requires Distinct(t)
    ensures multiset(t)[x] <= 1
    decreases |t|
  {
    if t != [] {
      var n := |t| - 1;
      assert t == t[..n] + [t[n]];
      DistinctCount(t[..n], x);
      if t[n] == x {
        assert x !in t[..n];
      }
    }
  }

  /** A permutation of a sequence without repetitions has none either. */
  lemma DistinctPermutation(s: seq<Bytes>, t: seq<Bytes>)
    requires Distinct(t)
    requires multiset(s) == multiset(t)
    ensures Distinct(s)
  {
    forall p, q | 0 <= p < q < |s|
      ensures s[p] != s[q]
    {
      if s[p] == s[q] {
        var x := s[p];
        assert s == s[..p] + [x] + s[p + 1..q] + [x] + s[q + 1..];
        assert multiset(s)[x] >= 2;
        DistinctCount(t, x);
      }
    }
  }

  /** Sorted without repetitions is strictly sorted. */
  lemma SortedDistinctIsStrict(s: seq<Bytes>)
    requires Sorted(s) && Distinct(s)
    ensures StrictlySorted(s)
  {
    forall p, q | 0 <= p < q < |s|
      ensures LexLess(s[p], s[q])
    {
      LexTotal(s[p], s[q]);
    }
  }
}
