/**
 * Types and small helpers shared by the indexer, the query engine and the
 * two standalone text utilities.
 */
module Common {

  datatype Option<T> = None | Some(value: T)

  /** A C++ `char`: one byte, compared as an unsigned value. */
  type Char8 = c: char | c as int < 256 witness 'a'

  /** A C++ `std::string`: a sequence of bytes. */
  type Str = seq<Char8>

  /** One byte of an index file. */
  type Byte = b: int | 0 <= b < 256

  predicate IsUpper(c: char) { 'A' <= c <= 'Z' }

  predicate IsLowerAlnum(c: char) { 'a' <= c <= 'z' || '0' <= c <= '9' }

  /**
   * `to_lower` (identical copies in index.cpp, search.cpp and stemmer.cpp, and
   * `to_lower_ascii` in tokenizer.cpp): ASCII folding of one byte.
   */
  function ToLower(c: Char8): (r: Char8)
    ensures IsUpper(c) ==> r as int == c as int + ('a' as int - 'A' as int)
    ensures !IsUpper(c) ==> r == c
    ensures !IsUpper(r)
  {
    if IsUpper(c) then (c as int + ('a' as int - 'A' as int)) as char else c
  }

  /** `is_alphanum` of tokenizer.cpp (written inline in index.cpp's `tokenize`). */
  predicate IsAlnum(c: Char8)
    ensures IsAlnum(c) <==> IsLowerAlnum(ToLower(c))
  {
    'a' <= c <= 'z' || 'A' <= c <= 'Z' || '0' <= c <= '9'
  }

  /** Every byte of `s` folded with ToLower. */
  function Lowered(s: Str): (r: Str)
    ensures |r| == |s|
  {
    seq(|s|, i requires 0 <= i < |s| => ToLower(s[i]))
  }

  predicate NonDecreasing(s: seq<int>)
  {
    forall i, j :: 0 <= i < j < |s| ==> s[i] <= s[j]
  }

  predicate StrictlyAscending(s: seq<int>)
  {
    forall i, j :: 0 <= i < j < |s| ==> s[i] < s[j]
  }

  /** `a < b` on `std::string`: lexicographic on unsigned bytes, a proper prefix first. */
  predicate StrLess(a: Str, b: Str)
    decreases |a|
  {
    if |a| == 0 then |b| > 0
    else if |b| == 0 then false
    else if a[0] != b[0] then a[0] < b[0]
    else StrLess(a[1..], b[1..])
  }

  lemma {:induction false} StrLessIrreflexive(a: Str)
    ensures !StrLess(a, a)
    decreases |a|
  {
    if |a| > 0 {
      StrLessIrreflexive(a[1..]);
    }
  }

  lemma {:induction false} StrLessTransitive(a: Str, b: Str, c: Str)
    requires StrLess(a, b) && StrLess(b, c)
    ensures StrLess(a, c)
    decreases |a|
  {
    if |a| > 0 && a[0] == b[0] && b[0] == c[0] {
      StrLessTransitive(a[1..], b[1..], c[1..]);
    }
  }

  lemma {:induction false} StrLessTotal(a: Str, b: Str)
    requires a != b
    ensures StrLess(a, b) || StrLess(b, a)
    decreases |a|
  {
    if |a| > 0 && |b| > 0 && a[0] == b[0] {
      assert a == [a[0]] + a[1..] && b == [b[0]] + b[1..];
      StrLessTotal(a[1..], b[1..]);
    }
  }

  lemma {:induction false} StrLessAsymmetric(a: Str, b: Str)
    requires StrLess(a, b)
    ensures !StrLess(b, a)
    decreases |a|
  {
    if |a| > 0 && |b| > 0 && a[0] == b[0] {
      StrLessAsymmetric(a[1..], b[1..]);
    }
  }
}
