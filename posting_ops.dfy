/**
 * The three set operations of the query engine (search.cpp) over posting
 * lists: two-cursor intersection (`and_op`), two-cursor union (`or_op`)
 * and complement against the document range (`not_op`).
 *
 * Each operation has a recursive definition (the merge read from the front)
 * and a loop method proved equal to it; the lemmas state what the results
 * mean as sets.
 */
module PostingOps {
  import opened Common

  /** The two-cursor intersection, read recursively from the heads of both lists. */
  function Intersect(a: seq<int>, b: seq<int>): (r: seq<int>)
    ensures forall x :: x in r ==> x in a && x in b
    ensures |r| <= |a| && |r| <= |b|
    decreases |a| + |b|
  {
    if a == [] || b == [] then []
    else if a[0] == b[0] then [a[0]] + Intersect(a[1..], b[1..])
    else if a[0] < b[0] then Intersect(a[1..], b)
    else Intersect(a, b[1..])
  }

  /** The two-cursor union, read recursively from the heads of both lists. */
  function Union(a: seq<int>, b: seq<int>): (r: seq<int>)
    ensures |r| <= |a| + |b|
    decreases |a| + |b|
  {
    if a == [] then b
    else if b == [] then a
    else if a[0] == b[0] then [a[0]] + Union(a[1..], b[1..])
    else if a[0] < b[0] then [a[0]] + Union(a[1..], b)
    else [b[0]] + Union(a, b[1..])
  }

  /** The ids below `k` that do not occur in `a`, ascending. */
  function ComplementBelow(a: seq<int>, k: int): (r: seq<int>)
    ensures forall x :: x in r ==> 0 <= x < k
    decreases k
  {
    if k <= 0 then []
    else ComplementBelow(a, k - 1) + (if k - 1 in a then [] else [k - 1])
  }

  /** `not_op(a, total_docs)`: the ids of `[0, total_docs)` that are not in `a`. */
  function Complement(a: seq<int>, totalDocs: int): seq<int>
  {
    ComplementBelow(a, totalDocs)
  }

  // ---------------------------------------------------------------------------
  // Meaning of the three operations

  lemma {:induction false} ComplementMembers(a: seq<int>, k: int)
    ensures forall x :: x in ComplementBelow(a, k) <==> 0 <= x < k && x !in a
    ensures StrictlyAscending(ComplementBelow(a, k))
    decreases k
  {
    if k > 0 {
      ComplementMembers(a, k - 1);
      if k - 1 !in a {
        SnocStrict(ComplementBelow(a, k - 1), k - 1);
      } else {
        assert ComplementBelow(a, k) == ComplementBelow(a, k - 1) + [];
      }
    }
  }

  /** `not_op`: ascending without repeats, exactly the ids of `[0, totalDocs)` missing from `a`; empty when `totalDocs <= 0`. */
  lemma ComplementIsSetDifference(a: seq<int>, totalDocs: int)
    ensures StrictlyAscending(Complement(a, totalDocs))
    ensures forall x :: x in Complement(a, totalDocs) <==> 0 <= x < totalDocs && x !in a
    ensures totalDocs <= 0 ==> Complement(a, totalDocs) == []
  {
    ComplementMembers(a, totalDocs);
  }

  lemma ConsSorted(x: int, s: seq<int>)
    requires NonDecreasing(s) && forall y :: y in s ==> x <= y
    ensures NonDecreasing([x] + s)
  {
    var t := [x] + s;
    forall i, j | 0 <= i < j < |t| ensures t[i] <= t[j] {
      if i > 0 { assert t[i] == s[i - 1] && t[j] == s[j - 1]; } else { assert t[j] == s[j - 1]; assert s[j - 1] in s; }
    }
  }

  lemma ConsStrict(x: int, s: seq<int>)
    requires StrictlyAscending(s) && forall y :: y in s ==> x < y
    ensures StrictlyAscending([x] + s)
  {
    var t := [x] + s;
    forall i, j | 0 <= i < j < |t| ensures t[i] < t[j] {
      if i > 0 { assert t[i] == s[i - 1] && t[j] == s[j - 1]; } else { assert t[j] == s[j - 1]; assert s[j - 1] in s; }
    }
  }

  lemma SnocStrict(s: seq<int>, x: int)
    requires StrictlyAscending(s) && forall y :: y in s ==> y < x
    ensures StrictlyAscending(s + [x])
  {
    var t := s + [x];
    forall i, j | 0 <= i < j < |t| ensures t[i] < t[j] {
      if j < |s| { assert t[i] == s[i] && t[j] == s[j]; } else { assert t[i] == s[i]; assert s[i] in s; }
    }
  }

  lemma TailMembers(s: seq<int>)
    requires s != []
    ensures forall x :: x in s <==> x == s[0] || x in s[1..]
  {
    assert s == [s[0]] + s[1..];
  }

  lemma SortedTail(s: seq<int>)
    requires s != [] && NonDecreasing(s)
    ensures NonDecreasing(s[1..]) && forall y :: y in s[1..] ==> s[0] <= y
  {
    forall y | y in s[1..] ensures s[0] <= y {
      var k :| 0 <= k < |s[1..]| && s[1..][k] == y;
      assert s[k + 1] == y;
    }
  }

  lemma StrictTail(s: seq<int>)
    requires s != [] && StrictlyAscending(s)
    ensures StrictlyAscending(s[1..]) && forall y :: y in s[1..] ==> s[0] < y
  {
    forall y | y in s[1..] ensures s[0] < y {
      var k :| 0 <= k < |s[1..]| && s[1..][k] == y;
      assert s[k + 1] == y;
    }
  }

  lemma HeadIsMinimum(s: seq<int>, x: int)
    requires NonDecreasing(s) && x in s
    ensures s[0] <= x
  {
  }

  /** On sorted lists the intersection is sorted and holds exactly the common ids. */
  lemma {:induction false} IntersectSorted(a: seq<int>, b: seq<int>)
    requires NonDecreasing(a) && NonDecreasing(b)
    ensures NonDecreasing(Intersect(a, b))
    ensures forall x :: x in Intersect(a, b) <==> x in a && x in b
    decreases |a| + |b|
  {
    if a == [] || b == [] {
    } else if a[0] == b[0] {
      SortedTail(a);
      SortedTail(b);
      IntersectSorted(a[1..], b[1..]);
      TailMembers(a);
      TailMembers(b);
      ConsSorted(a[0], Intersect(a[1..], b[1..]));
    } else if a[0] < b[0] {
      SortedTail(a);
      IntersectSorted(a[1..], b);
      assert a[0] !in b by {
        if a[0] in b { HeadIsMinimum(b, a[0]); }
      }
      TailMembers(a);
    } else {
      SortedTail(b);
      IntersectSorted(a, b[1..]);
      assert b[0] !in a by {
        if b[0] in a { HeadIsMinimum(a, b[0]); }
      }
      TailMembers(b);
    }
  }

  /** On strictly ascending lists the intersection is strictly ascending: the sorted set intersection. */
  lemma {:induction false} IntersectStrict(a: seq<int>, b: seq<int>)
    requires StrictlyAscending(a) && StrictlyAscending(b)
    ensures StrictlyAscending(Intersect(a, b))
    ensures forall x :: x in Intersect(a, b) <==> x in a && x in b
    decreases |a| + |b|
  {
    IntersectSorted(a, b);
    if a == [] || b == [] {
    } else if a[0] == b[0] {
      StrictTail(a);
      StrictTail(b);
      IntersectStrict(a[1..], b[1..]);
      ConsStrict(a[0], Intersect(a[1..], b[1..]));
    } else if a[0] < b[0] {
      StrictTail(a);
      IntersectStrict(a[1..], b);
    } else {
      StrictTail(b);
      IntersectStrict(a, b[1..]);
    }
  }

  /** The union holds exactly the ids of either operand, sorted or not. */
  lemma {:induction false} UnionMembers(a: seq<int>, b: seq<int>)
    ensures forall x :: x in Union(a, b) <==> x in a || x in b
    decreases |a| + |b|
  {
    if a == [] || b == [] {
    } else if a[0] == b[0] {
      UnionMembers(a[1..], b[1..]);
      TailMembers(a);
      TailMembers(b);
    } else if a[0] < b[0] {
      UnionMembers(a[1..], b);
      TailMembers(a);
    } else {
      UnionMembers(a, b[1..]);
      TailMembers(b);
    }
  }

  /** On sorted lists the union is sorted. */
  lemma {:induction false} UnionSorted(a: seq<int>, b: seq<int>)
    requires NonDecreasing(a) && NonDecreasing(b)
    ensures NonDecreasing(Union(a, b))
    decreases |a| + |b|
  {
    if a == [] || b == [] {
    } else if a[0] == b[0] {
      SortedTail(a);
      SortedTail(b);
      UnionSorted(a[1..], b[1..]);
      UnionMembers(a[1..], b[1..]);
      ConsSorted(a[0], Union(a[1..], b[1..]));
    } else if a[0] < b[0] {
      SortedTail(a);
      SortedTail(b);
      UnionSorted(a[1..], b);
      UnionMembers(a[1..], b);
      ConsSorted(a[0], Union(a[1..], b));
    } else {
      SortedTail(a);
      SortedTail(b);
      UnionSorted(a, b[1..]);
      UnionMembers(a, b[1..]);
      assert forall y :: y in a ==> b[0] <= y by { SortedTail(a); TailMembers(a); }
      ConsSorted(b[0], Union(a, b[1..]));
    }
  }

  /** On strictly ascending lists the union is strictly ascending: the sorted set union. */
  lemma {:induction false} UnionStrict(a: seq<int>, b: seq<int>)
    requires StrictlyAscending(a) && StrictlyAscending(b)
    ensures StrictlyAscending(Union(a, b))
    ensures forall x :: x in Union(a, b) <==> x in a || x in b
    decreases |a| + |b|
  {
    UnionMembers(a, b);
    if a == [] || b == [] {
    } else {
      StrictTail(a);
      StrictTail(b);
      TailMembers(a);
      TailMembers(b);
      if a[0] == b[0] {
        UnionStrict(a[1..], b[1..]);
        ConsStrict(a[0], Union(a[1..], b[1..]));
      } else if a[0] < b[0] {
        UnionStrict(a[1..], b);
        ConsStrict(a[0], Union(a[1..], b));
      } else {
        UnionStrict(a, b[1..]);
        ConsStrict(b[0], Union(a, b[1..]));
      }
    }
  }

  /** A strictly ascending list is determined by its members. */
  lemma {:induction false} AscendingByMembers(s: seq<int>, t: seq<int>)
    requires StrictlyAscending(s) && StrictlyAscending(t)
    requires forall x :: x in s <==> x in t
    ensures s == t
    decreases |s|
  {
    if s != [] {
      assert s[0] in s;
      assert s[0] in t;
    }
    if t != [] {
      assert t[0] in t;
      assert t[0] in s;
    }
    if s != [] {
      assert s[0] == t[0];
      StrictTail(s);
      StrictTail(t);
      TailMembers(s);
      TailMembers(t);
      AscendingByMembers(s[1..], t[1..]);
      assert s == [s[0]] + s[1..] && t == [t[0]] + t[1..];
    }
  }

  /** De Morgan on posting lists: the complement of an intersection is the union of the complements. */
  lemma DeMorganAnd(a: seq<int>, b: seq<int>, totalDocs: int)
    requires NonDecreasing(a) && NonDecreasing(b)
    ensures Complement(Intersect(a, b), totalDocs) == Union(Complement(a, totalDocs), Complement(b, totalDocs))
  {
    IntersectSorted(a, b);
    ComplementIsSetDifference(Intersect(a, b), totalDocs);
    ComplementIsSetDifference(a, totalDocs);
    ComplementIsSetDifference(b, totalDocs);
    UnionStrict(Complement(a, totalDocs), Complement(b, totalDocs));
    AscendingByMembers(Complement(Intersect(a, b), totalDocs), Union(Complement(a, totalDocs), Complement(b, totalDocs)));
  }

  /** De Morgan on posting lists: the complement of a union is the intersection of the complements. */
  lemma DeMorganOr(a: seq<int>, b: seq<int>, totalDocs: int)
    ensures Complement(Union(a, b), totalDocs) == Intersect(Complement(a, totalDocs), Complement(b, totalDocs))
  {
    UnionMembers(a, b);
    ComplementIsSetDifference(Union(a, b), totalDocs);
    ComplementIsSetDifference(a, totalDocs);
    ComplementIsSetDifference(b, totalDocs);
    IntersectStrict(Complement(a, totalDocs), Complement(b, totalDocs));
    AscendingByMembers(Complement(Union(a, b), totalDocs), Intersect(Complement(a, totalDocs), Complement(b, totalDocs)));
  }

  // ---------------------------------------------------------------------------
  // The loops of search.cpp

  /** `and_op`: walks both lists with two indices, emitting on equal heads. */
  method AndOp(a: seq<int>, b: seq<int>) returns (result: seq<int>)
    ensures result == Intersect(a, b)
  {
    result := [];
    var i, j := 0, 0;
    while i < |a| && j < |b|
      invariant 0 <= i <= |a| && 0 <= j <= |b|
      invariant result + Intersect(a[i..], b[j..]) == Intersect(a, b)
      decreases |a| - i + |b| - j
    {
      assert a[i..][1..] == a[i + 1..] && b[j..][1..] == b[j + 1..];
      if a[i] == b[j] {
        result := result + [a[i]];
        i, j := i + 1, j + 1;
      } else if a[i] < b[j] {
        i := i + 1;
      } else {
        j := j + 1;
      }
    }
    assert Intersect(a[i..], b[j..]) == [];
    assert result + [] == result;
  }

  /** One step of the union walk at positions `i` and `j`, after `done` has been emitted. */
  lemma UnionFront(a: seq<int>, b: seq<int>, i: nat, j: nat, done: seq<int>)
    requires i < |a| && j < |b|
    ensures a[i] == b[j] ==> done + Union(a[i..], b[j..]) == (done + [a[i]]) + Union(a[i + 1..], b[j + 1..])
    ensures a[i] < b[j] ==> done + Union(a[i..], b[j..]) == (done + [a[i]]) + Union(a[i + 1..], b[j..])
    ensures a[i] > b[j] ==> done + Union(a[i..], b[j..]) == (done + [b[j]]) + Union(a[i..], b[j + 1..])
  {
    assert a[i..][1..] == a[i + 1..] && b[j..][1..] == b[j + 1..];
  }

  /** Once one list is used up, the union is the rest of the other. */
  lemma UnionRest(a: seq<int>, b: seq<int>, i: nat, j: nat, done: seq<int>)
    requires i <= |a| && j <= |b| && (i == |a| || j == |b|)
    ensures done + Union(a[i..], b[j..]) == done + a[i..] + b[j..]
  {
    if i == |a| {
      assert a[i..] == [];
    } else {
      assert b[j..] == [];
    }
  }

  /** Moving the head of `s[k..]` onto the emitted prefix. */
  lemma MoveHead(done: seq<int>, s: seq<int>, k: nat)
    requires k < |s|
    ensures done + s[k..] == (done + [s[k]]) + s[k + 1..]
  {
    assert s[k..] == [s[k]] + s[k + 1..];
  }

  /** `or_op`: the same walk emitting every head once, then both leftovers. */
  method OrOp(a: seq<int>, b: seq<int>) returns (result: seq<int>)
    ensures result == Union(a, b)
  {
    result := [];
    var i, j := 0, 0;
    while i < |a| && j < |b|
      invariant 0 <= i <= |a| && 0 <= j <= |b|
      invariant result + Union(a[i..], b[j..]) == Union(a, b)
      decreases |a| - i + |b| - j
    {
      UnionFront(a, b, i, j, result);
      if a[i] == b[j] {
        result, i, j := result + [a[i]], i + 1, j + 1;
      } else if a[i] < b[j] {
        result, i := result + [a[i]], i + 1;
      } else {
        result, j := result + [b[j]], j + 1;
      }
    }
    UnionRest(a, b, i, j, result);
    result := AppendRest(result, a, i);
    result := AppendRest(result, b, j);
  }

  /** A drain loop of `or_op`: copies what is left of one list, from position `k` on. */
  method AppendRest(done: seq<int>, s: seq<int>, k: nat) returns (result: seq<int>)
    requires k <= |s|
    ensures result == done + s[k..]
  {
    result := done;
    var i := k;
    while i < |s|
      invariant k <= i <= |s|
      invariant result + s[i..] == done + s[k..]
    {
      MoveHead(result, s, i);
      result, i := result + [s[i]], i + 1;
    }
    assert result + s[i..] == result;
  }

  /** `not_op`: collects the operand into a set, then keeps every id of `[0, totalDocs)` outside it. */
  method NotOp(a: seq<int>, totalDocs: int) returns (result: seq<int>)
    ensures result == Complement(a, totalDocs)
  {
    result := [];
    var excluded := set x | x in a;
    var i := 0;
    while i < totalDocs
      invariant 0 <= i <= (if totalDocs < 0 then 0 else totalDocs)
      invariant result == ComplementBelow(a, i)
    {
      if i !in excluded {
        result := result + [i];
      }
      i := i + 1;
    }
  }
}
