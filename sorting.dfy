/**
 * `std::sort` as the indexer uses it: on the file names of `list_txt_files`
 * and on the term table with `compare_terms`, both ordered by
 * `std::string`'s `operator<`. The library call is modelled by its result,
 * an insertion sort, whose contract is what `std::sort` promises: the result
 * is ascending and a permutation of the input. When no two keys are equal
 * (file names of one directory, terms of a table built with one record per
 * term) the ascending permutation is unique, so any correct sort gives this
 * same result.
 */
module Sorting {
  import opened Common

  /** No element's key is below that of an element before it. */
  predicate SortedBy<T>(s: seq<T>, key: T -> Str)
  {
    forall i, j :: 0 <= i < j < |s| ==> !StrLess(key(s[j]), key(s[i]))
  }

  /** Keys strictly ascending. */
  predicate StrictlySortedBy<T>(s: seq<T>, key: T -> Str)
  {
    forall i, j :: 0 <= i < j < |s| ==> StrLess(key(s[i]), key(s[j]))
  }

  /** No two elements share a key. */
  predicate DistinctKeys<T>(s: seq<T>, key: T -> Str)
  {
    forall i, j :: 0 <= i < j < |s| ==> key(s[i]) != key(s[j])
  }

  /** `x` placed before the first element whose key is not below its own. */
  function InsertBy<T>(x: T, s: seq<T>, key: T -> Str): (r: seq<T>)
    ensures |r| == |s| + 1
  {
    if s == [] then [x]
    else if StrLess(key(s[0]), key(x)) then [s[0]] + InsertBy(x, s[1..], key)
    else [x] + s
  }

  function SortBy<T>(s: seq<T>, key: T -> Str): (r: seq<T>)
    ensures |r| == |s|
  {
    if s == [] then [] else InsertBy(s[0], SortBy(s[1..], key), key)
  }

  lemma {:induction false} InsertByPermutes<T>(x: T, s: seq<T>, key: T -> Str)
    ensures multiset(InsertBy(x, s, key)) == multiset(s) + multiset{x}
    decreases |s|
  {
    if s != [] {
      assert s == [s[0]] + s[1..];
      InsertByPermutes(x, s[1..], key);
    }
  }

  /** Sorting only reorders: the result holds each element as often as the input. */
  lemma {:induction false} SortByPermutes<T>(s: seq<T>, key: T -> Str)
    ensures multiset(SortBy(s, key)) == multiset(s)
    decreases |s|
  {
    if s != [] {
      assert s == [s[0]] + s[1..];
      SortByPermutes(s[1..], key);
      InsertByPermutes(s[0], SortBy(s[1..], key), key);
    }
  }

  lemma {:induction false} InsertBySorted<T>(x: T, s: seq<T>, key: T -> Str)
    requires SortedBy(s, key)
    ensures SortedBy(InsertBy(x, s, key), key)
    decreases |s|
  {
    var r := InsertBy(x, s, key);
    if s == [] {
    } else if StrLess(key(s[0]), key(x)) {
      var rest := InsertBy(x, s[1..], key);
      InsertBySorted(x, s[1..], key);
      InsertByPermutes(x, s[1..], key);
      forall j | 0 < j < |r|
        ensures !StrLess(key(r[j]), key(s[0]))
      {
        assert r[j] == rest[j - 1];
        assert r[j] in multiset(rest);
        if r[j] == x {
          StrLessAsymmetric(key(s[0]), key(x));
        } else {
          assert r[j] in multiset(s[1..]);
          var m :| 0 <= m < |s[1..]| && s[1..][m] == r[j];
          assert s[m + 1] == r[j];
        }
      }
    } else {
      forall j | 0 <= j < |s|
        ensures !StrLess(key(s[j]), key(x))
      {
        if StrLess(key(s[j]), key(x)) {
          if key(s[0]) != key(s[j]) {
            StrLessTotal(key(s[0]), key(s[j]));
            StrLessTransitive(key(s[0]), key(s[j]), key(x));
          }
          assert false;
        }
      }
    }
  }

  /** The sorted result is ascending, as `std::sort` leaves it. */
  lemma {:induction false} SortBySorted<T>(s: seq<T>, key: T -> Str)
    ensures SortedBy(SortBy(s, key), key)
    decreases |s|
  {
    if s != [] {
      SortBySorted(s[1..], key);
      InsertBySorted(s[0], SortBy(s[1..], key), key);
    }
  }

  /** Ascending with no repeated key is strictly ascending. */
  lemma SortedDistinctStrict<T>(s: seq<T>, key: T -> Str)
    requires SortedBy(s, key) && DistinctKeys(s, key)
    ensures StrictlySortedBy(s, key)
  {
    forall i, j | 0 <= i < j < |s|
      ensures StrLess(key(s[i]), key(s[j]))
    {
      StrLessTotal(key(s[i]), key(s[j]));
    }
  }

  /** Reordering keeps keys distinct. */
  lemma DistinctKeysPermutation<T>(s: seq<T>, t: seq<T>, key: T -> Str)
    requires multiset(s) == multiset(t) && DistinctKeys(s, key)
    ensures DistinctKeys(t, key)
  {
    forall i, j | 0 <= i < j < |t|
      ensures key(t[i]) != key(t[j])
    {
      assert t[i] in multiset(s) && t[j] in multiset(s);
      var a :| 0 <= a < |s| && s[a] == t[i];
      var b :| 0 <= b < |s| && s[b] == t[j];
      if a == b {
        // t[i] == t[j] would occur twice in t but once in s
        assert t[i] == t[j];
        assert t == t[..i] + [t[i]] + t[i + 1..j] + [t[j]] + t[j + 1..];
        assert multiset(t)[t[i]] >= 2;
        OccursOnce(s, a, key);
        assert false;
      }
    }
  }

  /** In a sequence with distinct keys, each element occurs once. */
  lemma OccursOnce<T>(s: seq<T>, a: nat, key: T -> Str)
    requires a < |s| && DistinctKeys(s, key)
    ensures multiset(s)[s[a]] == 1
  {
    assert s == s[..a] + [s[a]] + s[a + 1..];
    assert s[a] !in multiset(s[..a]);
    assert s[a] !in multiset(s[a + 1..]);
  }

  /**
   * With distinct keys the result is strictly ascending; and it is the only
   * strictly ascending permutation, so it does not depend on how the sort
   * works.
   */
  lemma SortByStrict<T>(s: seq<T>, key: T -> Str)
    requires DistinctKeys(s, key)
    ensures StrictlySortedBy(SortBy(s, key), key)
  {
    SortBySorted(s, key);
    SortByPermutes(s, key);
    DistinctKeysPermutation(s, SortBy(s, key), key);
    SortedDistinctStrict(SortBy(s, key), key);
  }

  lemma StrictTail<T>(s: seq<T>, key: T -> Str)
    requires s != [] && StrictlySortedBy(s, key)
    ensures StrictlySortedBy(s[1..], key)
  {
    forall i, j | 0 <= i < j < |s| - 1
      ensures StrLess(key(s[1..][i]), key(s[1..][j]))
    {
      assert s[1..][i] == s[i + 1] && s[1..][j] == s[j + 1];
    }
  }

  /** The least element of a strictly ascending sequence is its first. */
  lemma StrictFirst<T>(s: seq<T>, t: seq<T>, key: T -> Str)
    requires s != [] && StrictlySortedBy(s, key) && StrictlySortedBy(t, key)
    requires multiset(s) == multiset(t)
    ensures t != [] && s[0] == t[0]
  {
    assert s[0] in multiset(t);
    var a :| 0 <= a < |t| && t[a] == s[0];
    assert t[0] in multiset(s);
    var b :| 0 <= b < |s| && s[b] == t[0];
    if a != 0 {
      assert StrLess(key(t[0]), key(s[0]));
      if b != 0 {
        StrLessAsymmetric(key(t[0]), key(s[0]));
      } else {
        StrLessIrreflexive(key(s[0]));
      }
    }
  }

  lemma MultisetTail<T>(s: seq<T>, t: seq<T>)
    requires s != [] && t != [] && s[0] == t[0] && multiset(s) == multiset(t)
    ensures multiset(s[1..]) == multiset(t[1..])
  {
    assert s == [s[0]] + s[1..] && t == [t[0]] + t[1..];
    assert multiset(s[1..]) == multiset(s) - multiset{s[0]};
    assert multiset(t[1..]) == multiset(t) - multiset{t[0]};
  }

  /** Two strictly ascending sequences holding the same elements are equal. */
  lemma {:induction false} StrictPermutationUnique<T>(s: seq<T>, t: seq<T>, key: T -> Str)
    requires StrictlySortedBy(s, key) && StrictlySortedBy(t, key)
    requires multiset(s) == multiset(t)
    ensures s == t
    decreases |s|
  {
    assert |s| == |multiset(s)| == |t|;
    if s != [] {
      StrictFirst(s, t, key);
      MultisetTail(s, t);
      StrictTail(s, key);
      StrictTail(t, key);
      StrictPermutationUnique(s[1..], t[1..], key);
      assert s == [s[0]] + s[1..] && t == [t[0]] + t[1..];
    }
  }
}
