/**
 * The document tokenizer of the indexer (`tokenize` in index.cpp): maximal
 * runs of ASCII letters and digits, folded to lower case, runs shorter than
 * two bytes dropped.
 */
module DocTokenizer {
  import opened Common

  /** Length of the longest prefix of `s` made of ASCII letters and digits. */
  function RunLength(s: Str): (n: nat)
    ensures n <= |s|
    ensures forall i :: 0 <= i < n ==> IsAlnum(s[i])
    ensures n < |s| ==> !IsAlnum(s[n])
  {
    if s == [] || !IsAlnum(s[0]) then 0 else 1 + RunLength(s[1..])
  }

  /**
   * The tokens `tokenize` emits for `s`: each maximal run of
   * letters and digits, lower-cased, in order of appearance, if it is at
   * least two bytes long.
   */
  function Tokens(s: Str): seq<Str>
    decreases |s|
  {
    if s == [] then []
    else if !IsAlnum(s[0]) then Tokens(s[1..])
    else
      var n := RunLength(s);
      (if n >= 2 then [Lowered(s[..n])] else []) + Tokens(s[n..])
  }

  /** A token as the indexer stores it: two or more lower-case letters or digits. */
  predicate IsTerm(t: Str)
  {
    |t| >= 2 && forall i :: 0 <= i < |t| ==> IsLowerAlnum(t[i])
  }

  lemma {:induction false} TokensAreTerms(s: Str)
    ensures forall t :: t in Tokens(s) ==> IsTerm(t)
    decreases |s|
  {
    if s != [] {
      if !IsAlnum(s[0]) {
        TokensAreTerms(s[1..]);
      } else {
        var n := RunLength(s);
        TokensAreTerms(s[n..]);
      }
    }
  }

  /** Text yields no token exactly when no two adjacent bytes are both letters or digits. */
  lemma {:induction false} NoTokensIffNoLongRun(s: Str)
    ensures Tokens(s) == [] <==> forall i :: 0 <= i < |s| - 1 ==> !(IsAlnum(s[i]) && IsAlnum(s[i + 1]))
    decreases |s|
  {
    if s != [] {
      if !IsAlnum(s[0]) {
        NoTokensIffNoLongRun(s[1..]);
        assert forall i :: 0 <= i < |s| - 1 ==> s[i + 1] == s[1..][i];
      } else {
        var n := RunLength(s);
        NoTokensIffNoLongRun(s[n..]);
        if n >= 2 {
          assert IsAlnum(s[0]) && IsAlnum(s[1]);
        } else {
          assert n == 1;
          assert forall i :: 1 <= i < |s| - 1 ==> s[i] == s[1..][i - 1] && s[i + 1] == s[1..][i];
          if |s| > 1 {
            assert !IsAlnum(s[1]);
          }
        }
      }
    }
  }

  /** A byte that is not a letter or digit ends a run: tokens on its two sides never merge. */
  lemma {:induction false} SeparatorSplits(a: Str, c: Char8, b: Str)
    requires !IsAlnum(c)
    ensures Tokens(a + [c] + b) == Tokens(a) + Tokens(b)
    decreases |a|
  {
    var s := a + [c] + b;
    if a == [] {
      assert s[1..] == b;
    } else if !IsAlnum(a[0]) {
      assert s[1..] == a[1..] + [c] + b;
      SeparatorSplits(a[1..], c, b);
    } else {
      var n := RunLength(a);
      assert s == a + ([c] + b);
      RunInPrefix(a, [c] + b);
      assert s[..n] == a[..n];
      assert s[n..] == a[n..] + [c] + b;
      SeparatorSplits(a[n..], c, b);
    }
  }

  /** The run at the front of `a` is not extended by what follows when `a` ends in a separator or the next byte is one. */
  lemma {:induction false} RunInPrefix(a: Str, rest: Str)
    requires rest != [] && !IsAlnum(rest[0])
    ensures RunLength(a + rest) == RunLength(a)
    decreases |a|
  {
    if a != [] && IsAlnum(a[0]) {
      assert (a + rest)[1..] == a[1..] + rest;
      RunInPrefix(a[1..], rest);
    }
  }

  /** How the scan loop closes a run: the pending run `s[..k]` ends at the separator `s[k]`. */
  lemma {:induction false} FlushAtSeparator(s: Str, k: nat)
    requires k < |s| && !IsAlnum(s[k])
    requires forall j :: 0 <= j < k ==> IsAlnum(s[j])
    ensures Tokens(s) == (if k >= 2 then [Lowered(s[..k])] else []) + Tokens(s[k + 1..])
  {
    if k == 0 {
    } else {
      assert RunLength(s) == k by { RunLengthOfRun(s, k); }
      var t := s[k..];
      assert t[1..] == s[k + 1..];
    }
  }

  lemma {:induction false} RunLengthOfRun(s: Str, k: nat)
    requires k <= |s|
    requires forall j :: 0 <= j < k ==> IsAlnum(s[j])
    requires k < |s| ==> !IsAlnum(s[k])
    ensures RunLength(s) == k
    decreases k
  {
    if k > 0 {
      RunLengthOfRun(s[1..], k - 1);
    }
  }

  /** How the scan loop ends: the input ends inside a run. */
  lemma {:induction false} FlushAtEnd(s: Str)
    requires forall j :: 0 <= j < |s| ==> IsAlnum(s[j])
    ensures Tokens(s) == (if |s| >= 2 then [Lowered(s)] else [])
  {
    if s != [] {
      RunLengthOfRun(s, |s|);
      assert s[..|s|] == s;
    }
  }

  /** The scan loop meets a separator at `i` while the pending run started at `start`. */
  lemma SeparatorStep(text: Str, start: nat, i: nat)
    requires start <= i < |text| && !IsAlnum(text[i])
    requires forall k :: start <= k < i ==> IsAlnum(text[k])
    ensures Tokens(text[start..]) == (if i - start >= 2 then [Lowered(text[start..i])] else []) + Tokens(text[i + 1..])
  {
    var s := text[start..];
    FlushAtSeparator(s, i - start);
    assert s[..i - start] == text[start..i];
    assert s[i - start + 1..] == text[i + 1..];
  }

  /** The scan loop meets a letter or digit at `i`: the pending token grows by its folded byte. */
  lemma LoweredSnoc(text: Str, start: nat, i: nat)
    requires start <= i < |text|
    ensures Lowered(text[start..i + 1]) == Lowered(text[start..i]) + [ToLower(text[i])]
  {
  }

  /** The scan loop reaches the end of the text inside the pending run. */
  lemma EndStep(text: Str, start: nat)
    requires start <= |text|
    requires forall k :: start <= k < |text| ==> IsAlnum(text[k])
    ensures Tokens(text[start..]) == (if |text| - start >= 2 then [Lowered(text[start..])] else [])
  {
    FlushAtEnd(text[start..]);
  }

  /** The loop's token list after a separator: the pending run is emitted when it has two or more bytes. */
  lemma SeparatorFlush(text: Str, start: nat, i: nat, tokens: seq<Str>)
    requires start <= i < |text| && !IsAlnum(text[i])
    requires forall k :: start <= k < i ==> IsAlnum(text[k])
    ensures i - start >= 2 ==> tokens + Tokens(text[start..]) == (tokens + [Lowered(text[start..i])]) + Tokens(text[i + 1..])
    ensures i - start < 2 ==> tokens + Tokens(text[start..]) == tokens + Tokens(text[i + 1..])
  {
    SeparatorStep(text, start, i);
    if i - start < 2 {
      assert [] + Tokens(text[i + 1..]) == Tokens(text[i + 1..]);
    }
  }

  /** The loop's token list at the end of the text: the pending run is emitted when it has two or more bytes. */
  lemma EndFlush(text: Str, start: nat, tokens: seq<Str>)
    requires start <= |text|
    requires forall k :: start <= k < |text| ==> IsAlnum(text[k])
    ensures |text| - start >= 2 ==> tokens + Tokens(text[start..]) == tokens + [Lowered(text[start..|text|])]
    ensures |text| - start < 2 ==> tokens + Tokens(text[start..]) == tokens
  {
    EndStep(text, start);
    assert text[start..|text|] == text[start..];
    assert tokens + [] == tokens;
  }

  /**
   * The state of the scan loop after `i` bytes: `current` is the folded run
   * pending since `start`, and the tokens emitted so far followed by the
   * tokens of the text from `start` are the tokens of the whole text.
   */
  ghost predicate Scanned(text: Str, i: nat, tokens: seq<Str>, current: Str, start: nat)
  {
    && start <= i <= |text| && |current| == i - start
    && (forall k :: start <= k < i ==> IsAlnum(text[k]))
    && current == Lowered(text[start..i])
    && tokens + Tokens(text[start..]) == Tokens(text)
  }

  /** A letter or digit extends the pending run by its folded byte. */
  lemma ScanAlnum(text: Str, i: nat, tokens: seq<Str>, current: Str, start: nat)
    requires i < |text| && IsAlnum(text[i]) && Scanned(text, i, tokens, current, start)
    ensures Scanned(text, i + 1, tokens, current + [ToLower(text[i])], start)
  {
    LoweredSnoc(text, start, i);
  }

  /** A separator emits the pending run when it has two or more bytes, and a new run starts after it. */
  lemma ScanSeparator(text: Str, i: nat, tokens: seq<Str>, current: Str, start: nat)
    requires i < |text| && !IsAlnum(text[i]) && Scanned(text, i, tokens, current, start)
    ensures Scanned(text, i + 1, if |current| >= 2 then tokens + [current] else tokens, [], i + 1)
  {
    SeparatorFlush(text, start, i, tokens);
    assert text[i + 1..i + 1] == [];
  }

  /** At the end of the text the pending run is emitted when it has two or more bytes, and that completes the tokens. */
  lemma ScanEnd(text: Str, tokens: seq<Str>, current: Str, start: nat)
    requires Scanned(text, |text|, tokens, current, start)
    ensures (if |current| >= 2 then tokens + [current] else tokens) == Tokens(text)
  {
    EndFlush(text, start, tokens);
  }

  /** `tokenize` (index.cpp): one pass over the text, growing the pending token byte by byte. */
  method Tokenize(text: Str) returns (tokens: seq<Str>)
    ensures tokens == Tokens(text)
  {
    tokens := [];
    var current: Str := [];
    ghost var start := 0;
    for i := 0 to |text|
      invariant Scanned(text, i, tokens, current, start)
    {
      var c := text[i];
      if IsAlnum(c) {
        ScanAlnum(text, i, tokens, current, start);
        current := current + [ToLower(c)];
      } else {
        ScanSeparator(text, i, tokens, current, start);
        if |current| != 0 && |current| >= 2 {
          tokens := tokens + [current];
        }
        current := [];
        start := i + 1;
      }
    }
    ScanEnd(text, tokens, current, start);
    if |current| != 0 && |current| >= 2 {
      tokens := tokens + [current];
    }
  }
}
