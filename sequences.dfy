/** Lexicographic keys and the sorting of sequences by such a key.

    Both sorts of the core order by a key made of up to three integers:
    query responses by (file id, begin offset, end offset) and overload
    candidates by (arity, symbol id).  The library sort used by the source
    gives no promise about equal keys; the model fixes a stable insertion
    sort, so that among equal keys the earlier input element comes first. */
module Sequences {

  datatype Key = Key(major: int, middle: int, minor: int)

  /** The lexicographic order on keys (a total preorder, and antisymmetric). */
  predicate KeyLe(a: Key, b: Key)
  {
    a.major < b.major ||
    (a.major == b.major && (a.middle < b.middle || (a.middle == b.middle && a.minor <= b.minor)))
  }

  predicate KeyLt(a: Key, b: Key)
  {
    KeyLe(a, b) && a != b
  }

  predicate SortedBy<T>(s: seq<T>, key: T -> Key)
  {
    forall i, j :: 0 <= i < j < |s| ==> KeyLe(key(s[i]), key(s[j]))
  }

  predicate StrictlySortedBy<T>(s: seq<T>, key: T -> Key)
  {
    forall i, j :: 0 <= i < j < |s| ==> KeyLt(key(s[i]), key(s[j]))
  }

  /** Inserts `x` before the first element whose key is not smaller than its own. */
  function Insert<T>(x: T, s: seq<T>, key: T -> Key): (r: seq<T>)
    requires SortedBy(s, key)
    ensures SortedBy(r, key)
    ensures multiset(r) == multiset(s) + multiset{x}
    ensures |r| == |s| + 1
  {
    if s == [] then [x]
    else if KeyLe(key(x), key(s[0])) then [x] + s
    else
      SortedTail(s, key);
      var rest := Insert(x, s[1..], key);
      FirstBoundsSorted(s, key);
      assert forall k :: 0 <= k < |rest| ==> KeyLe(key(s[0]), key(rest[k])) by {
        forall k | 0 <= k < |rest|
          ensures KeyLe(key(s[0]), key(rest[k]))
        {
          assert rest[k] in multiset(rest);
          if rest[k] != x {
            assert rest[k] in multiset(s[1..]);
            assert rest[k] in s;
          }
        }
      }
      ConsSorted(s[0], rest, key);
      assert s == [s[0]] + s[1..];
      [s[0]] + rest
  }

  /** Insertion sort: an ordered permutation of `s`. */
  function SortBy<T>(s: seq<T>, key: T -> Key): (r: seq<T>)
    ensures SortedBy(r, key)
    ensures multiset(r) == multiset(s)
    ensures |r| == |s|
  {
    if s == [] then []
    else
      assert s == [s[0]] + s[1..];
      Insert(s[0], SortBy(s[1..], key), key)
  }

  /** Sorting an already ordered sequence changes nothing. */
  lemma {:induction false} SortBySortedIsIdentity<T>(s: seq<T>, key: T -> Key)
    requires SortedBy(s, key)
    ensures SortBy(s, key) == s
  {
    if s != [] {
      assert SortedBy(s[1..], key);
      SortBySortedIsIdentity(s[1..], key);
      if |s| > 1 {
        assert KeyLe(key(s[0]), key(s[1]));
      }
      assert s == [s[0]] + s[1..];
    }
  }

  /** Every element of a sequence is also an element of its sorted form, and back. */
  lemma SortByMembers<T>(s: seq<T>, key: T -> Key)
    ensures forall x :: x in SortBy(s, key) <==> x in s
  {
    var r := SortBy(s, key);
    forall x
      ensures x in r <==> x in s
    {
      assert x in r <==> x in multiset(r);
      assert x in s <==> x in multiset(s);
    }
  }

  /** In an ordered sequence the last element's key bounds every element's key. */
  lemma SortedBoundedByLast<T>(s: seq<T>, key: T -> Key)
    ensures SortedBy(s, key) && |s| > 0 ==> forall x :: x in s ==> KeyLe(key(x), key(s[|s| - 1]))
  {
    if SortedBy(s, key) && |s| > 0 {
      forall x | x in s
        ensures KeyLe(key(x), key(s[|s| - 1]))
      {
        var k :| 0 <= k < |s| && s[k] == x;
        if k < |s| - 1 {
          assert KeyLe(key(s[k]), key(s[|s| - 1]));
        }
      }
    }
  }

  lemma SortedTail<T>(s: seq<T>, key: T -> Key)
    requires SortedBy(s, key) && |s| > 0
    ensures SortedBy(s[1..], key)
  {
    forall i, j | 0 <= i < j < |s| - 1
      ensures KeyLe(key(s[1..][i]), key(s[1..][j]))
    {
      assert s[1..][i] == s[i + 1] && s[1..][j] == s[j + 1];
    }
  }

  lemma SortedDropSecond<T>(s: seq<T>, key: T -> Key)
    requires SortedBy(s, key) && |s| > 1
    ensures SortedBy([s[0]] + s[2..], key)
  {
    var t := [s[0]] + s[2..];
    forall i, j | 0 <= i < j < |t|
      ensures KeyLe(key(t[i]), key(t[j]))
    {
      assert t[j] == s[j + 1];
      if i == 0 {
        assert t[i] == s[0];
      } else {
        assert t[i] == s[i + 1];
      }
    }
  }

  lemma ConsStrictlySorted<T>(x: T, u: seq<T>, key: T -> Key)
    requires StrictlySortedBy(u, key)
    requires forall k :: 0 <= k < |u| ==> KeyLt(key(x), key(u[k]))
    ensures StrictlySortedBy([x] + u, key)
  {
    var r := [x] + u;
    forall i, j | 0 <= i < j < |r|
      ensures KeyLt(key(r[i]), key(r[j]))
    {
      assert r[j] == u[j - 1];
      if i > 0 {
        assert r[i] == u[i - 1];
      }
    }
  }

  /** In an ordered sequence the first element's key is at most every element's key. */
  lemma FirstBoundsSorted<T>(s: seq<T>, key: T -> Key)
    requires SortedBy(s, key) && |s| > 0
    ensures forall y :: y in s ==> KeyLe(key(s[0]), key(y))
  {
    forall y | y in s
      ensures KeyLe(key(s[0]), key(y))
    {
      var k :| 0 <= k < |s| && s[k] == y;
      if k > 0 {
        assert KeyLe(key(s[0]), key(s[k]));
      }
    }
  }

  lemma ConsSorted<T>(x: T, u: seq<T>, key: T -> Key)
    requires SortedBy(u, key)
    requires forall k :: 0 <= k < |u| ==> KeyLe(key(x), key(u[k]))
    ensures SortedBy([x] + u, key)
  {
    var r := [x] + u;
    forall i, j | 0 <= i < j < |r|
      ensures KeyLe(key(r[i]), key(r[j]))
    {
      assert r[j] == u[j - 1];
      if i > 0 {
        assert r[i] == u[i - 1];
      }
    }
  }
}
