/**
 * The query tokenizer of the search tool (`tokenize_query` in search.cpp).
 *
 * The five operator bytes `( ) | & !` each end the pending term and become a
 * one-byte token, except that `|` (resp. `&`) replaces a last emitted `"|"`
 * (resp. `"&"`) token by `"||"` (resp. `"&&"`). A space only ends the pending
 * term. Every other byte, folded to lower case, extends the pending term.
 */
module QueryTokenizer {
  import opened Common

  predicate IsOperatorChar(c: char)
  {
    c == '(' || c == ')' || c == '|' || c == '&' || c == '!'
  }

  /** A byte that may occur inside a term token. */
  predicate IsTermChar(c: char)
  {
    !IsOperatorChar(c) && c != ' ' && !IsUpper(c)
  }

  /** A free-text term token: non-empty, no operator byte, no space, no upper-case letter. */
  predicate IsTermToken(t: Str)
  {
    |t| > 0 && forall i :: 0 <= i < |t| ==> IsTermChar(t[i])
  }

  /** The tokens the query tokenizer can emit. */
  predicate IsQueryToken(t: Str)
  {
    t == "(" || t == ")" || t == "|" || t == "&" || t == "!" || t == "||" || t == "&&"
    || IsTermToken(t)
  }

  /** The tokenizer's state after a prefix of the query: emitted tokens and the pending term. */
  datatype Scan = Scan(tokens: seq<Str>, current: Str)

  /** Push the pending term, if any. */
  function Flush(tokens: seq<Str>, current: Str): seq<Str>
  {
    if current != [] then tokens + [current] else tokens
  }

  /** One iteration of the loop over the query's bytes. */
  function Step(s: Scan, c: Char8): Scan
  {
    if IsOperatorChar(c) then
      var toks := Flush(s.tokens, s.current);
      if c == '|' && toks != [] && toks[|toks| - 1] == "|" then Scan(toks[..|toks| - 1] + ["||"], [])
      else if c == '&' && toks != [] && toks[|toks| - 1] == "&" then Scan(toks[..|toks| - 1] + ["&&"], [])
      else Scan(toks + [[c]], [])
    else if c == ' ' then Scan(Flush(s.tokens, s.current), [])
    else Scan(s.tokens, s.current + [ToLower(c)])
  }

  /** The state after the whole of `q` has been read. */
  function ScanAll(q: Str): Scan
  {
    if q == [] then Scan([], []) else Step(ScanAll(q[..|q| - 1]), q[|q| - 1])
  }

  /** The tokens of `q`: the state after the loop, with the pending term pushed. */
  function QueryTokens(q: Str): seq<Str>
  {
    var s := ScanAll(q);
    Flush(s.tokens, s.current)
  }

  /** `tokenize_query` (search.cpp): one pass over the query. */
  method TokenizeQuery(query: Str) returns (tokens: seq<Str>)
    ensures tokens == QueryTokens(query)
  {
    tokens := [];
    var current: Str := [];
    for i := 0 to |query|
      invariant Scan(tokens, current) == ScanAll(query[..i])
    {
      assert query[..i + 1][..i] == query[..i];
      var c := query[i];
      if IsOperatorChar(c) {
        if current != [] {
          tokens := tokens + [current];
          current := [];
        }
        if c == '|' && tokens != [] && tokens[|tokens| - 1] == "|" {
          tokens := tokens[..|tokens| - 1] + ["||"];
        } else if c == '&' && tokens != [] && tokens[|tokens| - 1] == "&" {
          tokens := tokens[..|tokens| - 1] + ["&&"];
        } else {
          tokens := tokens + [[c]];
        }
      } else if c == ' ' {
        if current != [] {
          tokens := tokens + [current];
          current := [];
        }
      } else {
        current := current + [ToLower(c)];
      }
    }
    assert query[..|query|] == query;
    if current != [] {
      tokens := tokens + [current];
    }
  }

  // ---------------------------------------------------------------------------
  // What the tokens look like

  predicate WellFormed(s: Scan)
  {
    (forall t :: t in s.tokens ==> IsQueryToken(t))
    && forall i :: 0 <= i < |s.current| ==> IsTermChar(s.current[i])
  }

  lemma StepWellFormed(s: Scan, c: Char8)
    requires WellFormed(s)
    ensures WellFormed(Step(s, c))
  {
    var toks := Flush(s.tokens, s.current);
    assert forall t :: t in toks ==> IsQueryToken(t);
    if IsOperatorChar(c) {
      if toks != [] {
        assert forall t :: t in toks[..|toks| - 1] ==> t in toks;
      }
    } else if c != ' ' {
      var cur := s.current + [ToLower(c)];
      assert forall i :: 0 <= i < |cur| ==> IsTermChar(cur[i]);
    }
  }

  lemma {:induction false} ScanAllWellFormed(q: Str)
    ensures WellFormed(ScanAll(q))
    decreases |q|
  {
    if q != [] {
      ScanAllWellFormed(q[..|q| - 1]);
      StepWellFormed(ScanAll(q[..|q| - 1]), q[|q| - 1]);
    }
  }

  /**
   * Every token is an operator or a term token; in particular no token is a
   * space or contains one, so the tokenizer never emits the `" "` token that
   * the term level of the evaluator treats as an implicit AND.
   */
  lemma QueryTokensWellFormed(q: Str)
    ensures forall t :: t in QueryTokens(q) ==> IsQueryToken(t)
    ensures forall t :: t in QueryTokens(q) ==> t != [] && ' ' !in t
    ensures " " !in QueryTokens(q)
  {
    ScanAllWellFormed(q);
    var toks := QueryTokens(q);
    forall t | t in toks ensures t != [] && ' ' !in t {
      assert IsQueryToken(t);
      if IsTermToken(t) {
        assert forall i :: 0 <= i < |t| ==> t[i] != ' ';
      }
    }
  }

  /** A space only ends the pending term: appending one never changes the tokens. */
  lemma SpaceOnlyFlushes(q: Str)
    ensures QueryTokens(q + [' ']) == QueryTokens(q)
  {
    assert (q + [' '])[..|q|] == q;
  }

  /** An `&` merges into `"&&"` exactly when the last token so far is `"&"`; otherwise it is a token of its own. */
  lemma AmpersandMerges(q: Str)
    ensures var toks := QueryTokens(q);
      QueryTokens(q + ['&'])
      == if toks != [] && toks[|toks| - 1] == "&" then toks[..|toks| - 1] + ["&&"] else toks + ["&"]
  {
    assert (q + ['&'])[..|q|] == q;
  }

  /** A `|` merges into `"||"` exactly when the last token so far is `"|"`; otherwise it is a token of its own. */
  lemma BarMerges(q: Str)
    ensures var toks := QueryTokens(q);
      QueryTokens(q + ['|'])
      == if toks != [] && toks[|toks| - 1] == "|" then toks[..|toks| - 1] + ["||"] else toks + ["|"]
  {
    assert (q + ['|'])[..|q|] == q;
  }

  /** A term character extends the pending term. */
  lemma StepTermChar(s: Scan, c: Char8)
    requires IsTermChar(c)
    ensures Step(s, c) == Scan(s.tokens, s.current + [c])
  {
  }

  lemma {:induction false} ScanTermChars(q: Str)
    requires forall i :: 0 <= i < |q| ==> IsTermChar(q[i])
    ensures ScanAll(q) == Scan([], q)
    decreases |q|
  {
    if q != [] {
      var init, c := q[..|q| - 1], q[|q| - 1];
      assert forall i :: 0 <= i < |init| ==> init[i] == q[i];
      ScanTermChars(init);
      StepTermChar(Scan([], init), c);
      assert init + [c] == q;
    }
  }

  /** An operator other than `|` and `&`, followed by term characters, is emitted at once; the term stays pending. */
  lemma {:induction false} ScanOperatorThenTerm(c: Char8, w: Str)
    requires IsOperatorChar(c) && c != '|' && c != '&'
    requires forall i :: 0 <= i < |w| ==> IsTermChar(w[i])
    ensures ScanAll([c] + w) == Scan([[c]], w)
    decreases |w|
  {
    var q := [c] + w;
    if w == [] {
      assert q[..0] == [];
    } else {
      var init, d := w[..|w| - 1], w[|w| - 1];
      assert forall i :: 0 <= i < |init| ==> init[i] == w[i];
      ScanOperatorThenTerm(c, init);
      StepTermChar(Scan([[c]], init), d);
      assert q[..|q| - 1] == [c] + init;
      assert init + [d] == w;
    }
  }

  /** A query made of term characters only is a single term. */
  lemma OneTermTokens(q: Str)
    requires IsTermToken(q)
    ensures QueryTokens(q) == [q]
  {
    ScanTermChars(q);
  }

  /** An `&` on its own is a token; a second one after a space still merges into `&&`. */
  lemma SpacedAmpersands()
    ensures QueryTokens("&") == ["&"]
    ensures QueryTokens("& &") == ["&&"]
  {
    AmpersandMerges([]);
    assert [] + ['&'] == "&";
    SpaceOnlyFlushes("&");
    assert "&" + [' '] == "& ";
    AmpersandMerges("& ");
    assert "& " + ['&'] == "& &";
  }

  /** Three `&` in a row are `&&` followed by `&`. */
  lemma TripleAmpersand()
    ensures QueryTokens("&&&") == ["&&", "&"]
  {
    SpacedAmpersands();
    AmpersandMerges("&");
    assert "&" + ['&'] == "&&";
    AmpersandMerges("&&");
    assert "&&" + ['&'] == "&&&";
  }
}
