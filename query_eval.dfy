/**
 * The boolean query evaluator of the search tool (search.cpp): a
 * recursive-descent parser that evaluates as it parses, threading a cursor
 * `pos` into the token list.
 *
 *   Expression := Term { "||" Term }
 *   Term       := Factor { ("&&" | " ") Factor }
 *   Factor     := "!" Factor | "(" Expression [")"] | any other token (a term)
 *
 * The functions below are the evaluation read recursively (the `while` loops
 * of `evaluate_expression` and `evaluate_term` become `ExpressionRest` and
 * `TermRest`); the methods are the loops of the source, each proved to
 * compute its function. A result pairs the document ids with the new cursor.
 */
module QueryEval {
  import opened Common
  import opened Records
  import opened PostingOps
  import opened QueryTokenizer

  datatype Parsed = Parsed(ids: seq<int>, pos: nat)

  /** `evaluate_expression`. */
  function Expression(t: seq<Str>, pos: nat, index: seq<TermRecord>, totalDocs: int): (p: Parsed)
    requires pos <= |t|
    ensures pos <= p.pos <= |t|
    ensures p.pos == |t| || t[p.pos] != "||"
    decreases |t| - pos, 3
  {
    ExpressionRest(t, Term(t, pos, index, totalDocs), index, totalDocs)
  }

  /** The `while` loop of `evaluate_expression`, entered with `left` computed so far. */
  function ExpressionRest(t: seq<Str>, left: Parsed, index: seq<TermRecord>, totalDocs: int): (p: Parsed)
    requires left.pos <= |t|
    ensures left.pos <= p.pos <= |t|
    ensures p.pos == |t| || t[p.pos] != "||"
    decreases |t| - left.pos, 2
  {
    if left.pos < |t| && t[left.pos] == "||" then
      var right := Term(t, left.pos + 1, index, totalDocs);
      ExpressionRest(t, Parsed(Union(left.ids, right.ids), right.pos), index, totalDocs)
    else left
  }

  /** The tokens on which `evaluate_term`'s loop goes on: `&&`, and a space token (which the tokenizer never emits). */
  predicate ContinuesTerm(token: Str)
  {
    token == "&&" || token == " "
  }

  /** `evaluate_term`. */
  function Term(t: seq<Str>, pos: nat, index: seq<TermRecord>, totalDocs: int): (p: Parsed)
    requires pos <= |t|
    ensures pos <= p.pos <= |t|
    ensures p.pos == |t| || !ContinuesTerm(t[p.pos])
    decreases |t| - pos, 2
  {
    TermRest(t, Factor(t, pos, index, totalDocs), index, totalDocs)
  }

  /** The `while` loop of `evaluate_term`, entered with `left` computed so far. */
  function TermRest(t: seq<Str>, left: Parsed, index: seq<TermRecord>, totalDocs: int): (p: Parsed)
    requires left.pos <= |t|
    ensures left.pos <= p.pos <= |t|
    ensures p.pos == |t| || !ContinuesTerm(t[p.pos])
    decreases |t| - left.pos, 1
  {
    if left.pos < |t| && ContinuesTerm(t[left.pos]) then
      var right := Factor(t, left.pos + 1, index, totalDocs);
      TermRest(t, Parsed(Intersect(left.ids, right.ids), right.pos), index, totalDocs)
    else left
  }

  /**
   * `evaluate_factor`: at the end of the tokens it yields nothing and does
   * not move; otherwise it consumes at least one token.
   */
  function Factor(t: seq<Str>, pos: nat, index: seq<TermRecord>, totalDocs: int): (p: Parsed)
    requires pos <= |t|
    ensures pos <= p.pos <= |t|
    ensures pos == |t| ==> p == Parsed([], pos)
    ensures pos < |t| ==> pos < p.pos
    decreases |t| - pos, 0
  {
    if pos == |t| then Parsed([], pos)
    else if t[pos] == "!" then
      var operand := Factor(t, pos + 1, index, totalDocs);
      Parsed(Complement(operand.ids, totalDocs), operand.pos)
    else if t[pos] == "(" then
      var inner := Expression(t, pos + 1, index, totalDocs);
      if inner.pos < |t| && t[inner.pos] == ")" then Parsed(inner.ids, inner.pos + 1) else inner
    else Parsed(Lookup(t[pos], index), pos + 1)
  }

  /** The result of a whole query: `execute_search` with `total_docs` the size of the forward index. */
  function Search(query: Str, index: seq<TermRecord>, forward: seq<DocRecord>): seq<int>
  {
    Expression(QueryTokens(query), 0, index, |forward|).ids
  }

  // ---------------------------------------------------------------------------
  // The code of search.cpp

  /** `get_doc_ids`: linear scan, returning the first matching record's list. */
  method GetDocIds(term: Str, index: seq<TermRecord>) returns (ids: seq<int>)
    ensures ids == Lookup(term, index)
  {
    for k := 0 to |index|
      invariant forall m :: 0 <= m < k ==> index[m].term != term
    {
      if index[k].term == term {
        return index[k].docIds;
      }
    }
    assert !HasTerm(index, term);
    return [];
  }

  /** `evaluate_expression`: `pos` is the shared cursor, passed in and handed back. */
  method EvaluateExpression(t: seq<Str>, pos: nat, index: seq<TermRecord>, totalDocs: int)
    returns (ids: seq<int>, newPos: nat)
    requires pos <= |t|
    ensures Parsed(ids, newPos) == Expression(t, pos, index, totalDocs)
    decreases |t| - pos, 3
  {
    ids, newPos := EvaluateTerm(t, pos, index, totalDocs);
    while newPos < |t| && t[newPos] == "||"
      invariant pos <= newPos <= |t|
      invariant ExpressionRest(t, Parsed(ids, newPos), index, totalDocs) == Expression(t, pos, index, totalDocs)
      decreases |t| - newPos
    {
      ghost var left := Parsed(ids, newPos);
      newPos := newPos + 1;
      var right;
      right, newPos := EvaluateTerm(t, newPos, index, totalDocs);
      ids := OrOp(ids, right);
      assert ExpressionRest(t, left, index, totalDocs) == ExpressionRest(t, Parsed(ids, newPos), index, totalDocs);
    }
  }

  /** `evaluate_term`. */
  method EvaluateTerm(t: seq<Str>, pos: nat, index: seq<TermRecord>, totalDocs: int)
    returns (ids: seq<int>, newPos: nat)
    requires pos <= |t|
    ensures Parsed(ids, newPos) == Term(t, pos, index, totalDocs)
    decreases |t| - pos, 2
  {
    ids, newPos := EvaluateFactor(t, pos, index, totalDocs);
    while newPos < |t| && ContinuesTerm(t[newPos])
      invariant pos <= newPos <= |t|
      invariant TermRest(t, Parsed(ids, newPos), index, totalDocs) == Term(t, pos, index, totalDocs)
      decreases |t| - newPos
    {
      ghost var left := Parsed(ids, newPos);
      newPos := newPos + 1;
      var right;
      right, newPos := EvaluateFactor(t, newPos, index, totalDocs);
      ids := AndOp(ids, right);
      assert TermRest(t, left, index, totalDocs) == TermRest(t, Parsed(ids, newPos), index, totalDocs);
    }
  }

  /** `evaluate_factor`. */
  method EvaluateFactor(t: seq<Str>, pos: nat, index: seq<TermRecord>, totalDocs: int)
    returns (ids: seq<int>, newPos: nat)
    requires pos <= |t|
    ensures Parsed(ids, newPos) == Factor(t, pos, index, totalDocs)
    decreases |t| - pos, 0
  {
    newPos := pos;
    if newPos >= |t| {
      return [], newPos;
    }
    if t[newPos] == "!" {
      newPos := newPos + 1;
      var operand;
      operand, newPos := EvaluateFactor(t, newPos, index, totalDocs);
      ids := NotOp(operand, totalDocs);
      return;
    }
    if t[newPos] == "(" {
      newPos := newPos + 1;
      ids, newPos := EvaluateExpression(t, newPos, index, totalDocs);
      if newPos < |t| && t[newPos] == ")" {
        newPos := newPos + 1;
      }
      return;
    }
    var term := t[newPos];
    newPos := newPos + 1;
    ids := GetDocIds(term, index);
  }

  /** `execute_search`. */
  method ExecuteSearch(query: Str, index: seq<TermRecord>, forward: seq<DocRecord>) returns (ids: seq<int>)
    ensures ids == Search(query, index, forward)
  {
    var tokens := TokenizeQuery(query);
    var pos;
    ids, pos := EvaluateExpression(tokens, 0, index, |forward|);
  }

  // ---------------------------------------------------------------------------
  // Lookup

  /** An unknown term is not an error: it has the empty posting list. */
  lemma LookupMeaning(t: Str, index: seq<TermRecord>)
    ensures !HasTerm(index, t) ==> Lookup(t, index) == []
    ensures HasTerm(index, t) ==>
      exists k :: (0 <= k < |index| && index[k].term == t
        && (forall m :: 0 <= m < k ==> index[m].term != t) && Lookup(t, index) == index[k].docIds)
  {
    if HasTerm(index, t) {
      var k := FirstIndex(index, t);
      assert index[k].term == t && Lookup(t, index) == index[k].docIds;
    }
  }

  // ---------------------------------------------------------------------------
  // Results are sorted whenever the posting lists are

  predicate AllNonDecreasing(index: seq<TermRecord>)
  {
    forall k :: 0 <= k < |index| ==> NonDecreasing(index[k].docIds)
  }

  predicate AllStrictlyAscending(index: seq<TermRecord>)
  {
    forall k :: 0 <= k < |index| ==> StrictlyAscending(index[k].docIds)
  }

  /** `ids` is as ordered as the posting lists of `index` are. */
  predicate OrderedLike(ids: seq<int>, index: seq<TermRecord>)
  {
    (AllNonDecreasing(index) ==> NonDecreasing(ids))
    && (AllStrictlyAscending(index) ==> StrictlyAscending(ids))
  }

  lemma LookupOrdered(t: Str, index: seq<TermRecord>)
    ensures OrderedLike(Lookup(t, index), index)
  {
  }

  lemma ComplementOrdered(a: seq<int>, totalDocs: int, index: seq<TermRecord>)
    ensures OrderedLike(Complement(a, totalDocs), index)
  {
    ComplementIsSetDifference(a, totalDocs);
  }

  lemma IntersectOrdered(a: seq<int>, b: seq<int>, index: seq<TermRecord>)
    requires OrderedLike(a, index) && OrderedLike(b, index)
    ensures OrderedLike(Intersect(a, b), index)
  {
    if AllNonDecreasing(index) { IntersectSorted(a, b); }
    if AllStrictlyAscending(index) { IntersectStrict(a, b); }
  }

  lemma UnionOrdered(a: seq<int>, b: seq<int>, index: seq<TermRecord>)
    requires OrderedLike(a, index) && OrderedLike(b, index)
    ensures OrderedLike(Union(a, b), index)
  {
    if AllNonDecreasing(index) { UnionSorted(a, b); }
    if AllStrictlyAscending(index) { UnionStrict(a, b); }
  }

  /**
   * Every query result is non-decreasing when all posting lists are (as the
   * indexer writes them), and strictly ascending when they all are.
   */
  lemma {:induction false} ExpressionOrdered(t: seq<Str>, pos: nat, index: seq<TermRecord>, totalDocs: int)
    requires pos <= |t|
    ensures OrderedLike(Expression(t, pos, index, totalDocs).ids, index)
    decreases |t| - pos, 3
  {
    TermOrdered(t, pos, index, totalDocs);
    ExpressionRestOrdered(t, Term(t, pos, index, totalDocs), index, totalDocs);
  }

  lemma {:induction false} ExpressionRestOrdered(t: seq<Str>, left: Parsed, index: seq<TermRecord>, totalDocs: int)
    requires left.pos <= |t| && OrderedLike(left.ids, index)
    ensures OrderedLike(ExpressionRest(t, left, index, totalDocs).ids, index)
    decreases |t| - left.pos, 2
  {
    if left.pos < |t| && t[left.pos] == "||" {
      var right := Term(t, left.pos + 1, index, totalDocs);
      TermOrdered(t, left.pos + 1, index, totalDocs);
      UnionOrdered(left.ids, right.ids, index);
      ExpressionRestOrdered(t, Parsed(Union(left.ids, right.ids), right.pos), index, totalDocs);
    }
  }

  lemma {:induction false} TermOrdered(t: seq<Str>, pos: nat, index: seq<TermRecord>, totalDocs: int)
    requires pos <= |t|
    ensures OrderedLike(Term(t, pos, index, totalDocs).ids, index)
    decreases |t| - pos, 2
  {
    FactorOrdered(t, pos, index, totalDocs);
    TermRestOrdered(t, Factor(t, pos, index, totalDocs), index, totalDocs);
  }

  lemma {:induction false} TermRestOrdered(t: seq<Str>, left: Parsed, index: seq<TermRecord>, totalDocs: int)
    requires left.pos <= |t| && OrderedLike(left.ids, index)
    ensures OrderedLike(TermRest(t, left, index, totalDocs).ids, index)
    decreases |t| - left.pos, 1
  {
    if left.pos < |t| && ContinuesTerm(t[left.pos]) {
      var right := Factor(t, left.pos + 1, index, totalDocs);
      FactorOrdered(t, left.pos + 1, index, totalDocs);
      IntersectOrdered(left.ids, right.ids, index);
      TermRestOrdered(t, Parsed(Intersect(left.ids, right.ids), right.pos), index, totalDocs);
    }
  }

  lemma {:induction false} FactorOrdered(t: seq<Str>, pos: nat, index: seq<TermRecord>, totalDocs: int)
    requires pos <= |t|
    ensures OrderedLike(Factor(t, pos, index, totalDocs).ids, index)
    decreases |t| - pos, 0
  {
    if pos == |t| {
    } else if t[pos] == "!" {
      ComplementOrdered(Factor(t, pos + 1, index, totalDocs).ids, totalDocs, index);
    } else if t[pos] == "(" {
      ExpressionOrdered(t, pos + 1, index, totalDocs);
    } else {
      LookupOrdered(t[pos], index);
    }
  }

  // ---------------------------------------------------------------------------
  // Grammar: precedence, negation, leniency

  /** A term token is none of the grammar's operator tokens. */
  lemma TermTokenIsNoOperator(a: Str)
    requires IsTermToken(a)
    ensures a != "!" && a != "(" && a != ")" && a != "||" && a != "&&" && a != " "
  {
    assert IsTermChar(a[0]);
  }

  /** A term token in factor position is looked up and consumed. */
  lemma FactorAtTerm(t: seq<Str>, pos: nat, index: seq<TermRecord>, totalDocs: int)
    requires pos < |t| && IsTermToken(t[pos])
    ensures t[pos] != "||" && t[pos] != "&&" && t[pos] != " "
    ensures Factor(t, pos, index, totalDocs) == Parsed(Lookup(t[pos], index), pos + 1)
  {
    TermTokenIsNoOperator(t[pos]);
  }

  /** A one-term query finds that term's posting list, whatever the forward table. */
  lemma OneTermSearch(q: Str, index: seq<TermRecord>, forward: seq<DocRecord>)
    requires IsTermToken(q)
    ensures Search(q, index, forward) == Lookup(q, index)
  {
    OneTermTokens(q);
    var t, n := [q], |forward|;
    FactorAtTerm(t, 0, index, n);
    RestStops(t, Factor(t, 0, index, n), index, n);
    RestStops(t, Term(t, 0, index, n), index, n);
  }

  /** The loops stop at the end of the tokens or at a token that does not continue them. */
  lemma RestStops(t: seq<Str>, left: Parsed, index: seq<TermRecord>, totalDocs: int)
    requires left.pos <= |t|
    ensures left.pos == |t| || !ContinuesTerm(t[left.pos]) ==> TermRest(t, left, index, totalDocs) == left
    ensures left.pos == |t| || t[left.pos] != "||" ==> ExpressionRest(t, left, index, totalDocs) == left
  {
  }

  /** `a || b && c` is the union of `a` with the intersection of `b` and `c`. */
  lemma OrOfAnd(a: Str, b: Str, c: Str, index: seq<TermRecord>, totalDocs: int)
    requires IsTermToken(a) && IsTermToken(b) && IsTermToken(c)
    ensures Expression([a, "||", b, "&&", c], 0, index, totalDocs).ids
         == Union(Lookup(a, index), Intersect(Lookup(b, index), Lookup(c, index)))
  {
    var la, lb, lc := Lookup(a, index), Lookup(b, index), Lookup(c, index);
    var bc := Intersect(lb, lc);
    var t := [a, "||", b, "&&", c];
    FactorAtTerm(t, 0, index, totalDocs);
    FactorAtTerm(t, 2, index, totalDocs);
    FactorAtTerm(t, 4, index, totalDocs);
    RestStops(t, Parsed(la, 1), index, totalDocs);
    RestStops(t, Parsed(bc, 5), index, totalDocs);
    RestStops(t, Parsed(Union(la, bc), 5), index, totalDocs);
    assert TermRest(t, Parsed(lb, 3), index, totalDocs) == Parsed(bc, 5);
    assert Term(t, 2, index, totalDocs) == Parsed(bc, 5);
    assert Term(t, 0, index, totalDocs) == Parsed(la, 1);
    assert ExpressionRest(t, Parsed(la, 1), index, totalDocs) == Parsed(Union(la, bc), 5);
  }

  /** The parenthesized factor of `a || (b && c)` is the intersection, and parsing resumes after the `)`. */
  lemma ParenthesizedAndFactor(a: Str, b: Str, c: Str, index: seq<TermRecord>, totalDocs: int)
    requires IsTermToken(a) && IsTermToken(b) && IsTermToken(c)
    ensures Factor([a, "||", "(", b, "&&", c, ")"], 2, index, totalDocs)
         == Parsed(Intersect(Lookup(b, index), Lookup(c, index)), 7)
  {
    var lb, lc := Lookup(b, index), Lookup(c, index);
    var bc := Intersect(lb, lc);
    var u := [a, "||", "(", b, "&&", c, ")"];
    FactorAtTerm(u, 3, index, totalDocs);
    FactorAtTerm(u, 5, index, totalDocs);
    RestStops(u, Parsed(bc, 6), index, totalDocs);
    assert TermRest(u, Parsed(lb, 4), index, totalDocs) == Parsed(bc, 6);
    assert Term(u, 3, index, totalDocs) == Parsed(bc, 6);
    assert Expression(u, 3, index, totalDocs) == Parsed(bc, 6);
  }

  /** `a || (b && c)` is the union of `a` with the intersection of `b` and `c`. */
  lemma OrOfParenthesizedAnd(a: Str, b: Str, c: Str, index: seq<TermRecord>, totalDocs: int)
    requires IsTermToken(a) && IsTermToken(b) && IsTermToken(c)
    ensures Expression([a, "||", "(", b, "&&", c, ")"], 0, index, totalDocs).ids
         == Union(Lookup(a, index), Intersect(Lookup(b, index), Lookup(c, index)))
  {
    var la := Lookup(a, index);
    var bc := Intersect(Lookup(b, index), Lookup(c, index));
    var u := [a, "||", "(", b, "&&", c, ")"];
    FactorAtTerm(u, 0, index, totalDocs);
    ParenthesizedAndFactor(a, b, c, index, totalDocs);
    RestStops(u, Parsed(la, 1), index, totalDocs);
    RestStops(u, Parsed(bc, 7), index, totalDocs);
    RestStops(u, Parsed(Union(la, bc), 7), index, totalDocs);
    assert Term(u, 2, index, totalDocs) == Parsed(bc, 7);
    assert Term(u, 0, index, totalDocs) == Parsed(la, 1);
    assert ExpressionRest(u, Parsed(la, 1), index, totalDocs) == Parsed(Union(la, bc), 7);
  }

  /** AND binds tighter than OR: `a || b && c` is `a || (b && c)`. */
  lemma Precedence(a: Str, b: Str, c: Str, index: seq<TermRecord>, totalDocs: int)
    requires IsTermToken(a) && IsTermToken(b) && IsTermToken(c)
    ensures Expression([a, "||", b, "&&", c], 0, index, totalDocs).ids
         == Expression([a, "||", "(", b, "&&", c, ")"], 0, index, totalDocs).ids
  {
    OrOfAnd(a, b, c, index, totalDocs);
    OrOfParenthesizedAnd(a, b, c, index, totalDocs);
  }

  /** De Morgan on queries: `!(a && b)` and `!a || !b` find the same documents. */
  lemma DeMorganQuery(a: Str, b: Str, index: seq<TermRecord>, totalDocs: int)
    requires IsTermToken(a) && IsTermToken(b)
    requires AllNonDecreasing(index)
    ensures Expression(["!", "(", a, "&&", b, ")"], 0, index, totalDocs).ids
         == Expression(["!", a, "||", "!", b], 0, index, totalDocs).ids
  {
    var la, lb := Lookup(a, index), Lookup(b, index);
    var ab := Intersect(la, lb);
    var na, nb := Complement(la, totalDocs), Complement(lb, totalDocs);
    LookupOrdered(a, index);
    LookupOrdered(b, index);

    var t := ["!", "(", a, "&&", b, ")"];
    FactorAtTerm(t, 2, index, totalDocs);
    FactorAtTerm(t, 4, index, totalDocs);
    RestStops(t, Parsed(ab, 5), index, totalDocs);
    RestStops(t, Parsed(Complement(ab, totalDocs), 6), index, totalDocs);
    assert TermRest(t, Parsed(la, 3), index, totalDocs) == Parsed(ab, 5);
    assert Term(t, 2, index, totalDocs) == Parsed(ab, 5);
    assert Expression(t, 2, index, totalDocs) == Parsed(ab, 5);
    assert Factor(t, 1, index, totalDocs) == Parsed(ab, 6);
    assert Factor(t, 0, index, totalDocs) == Parsed(Complement(ab, totalDocs), 6);
    assert Term(t, 0, index, totalDocs) == Parsed(Complement(ab, totalDocs), 6);

    var u := ["!", a, "||", "!", b];
    FactorAtTerm(u, 1, index, totalDocs);
    FactorAtTerm(u, 4, index, totalDocs);
    RestStops(u, Parsed(nb, 5), index, totalDocs);
    RestStops(u, Parsed(Union(na, nb), 5), index, totalDocs);
    assert Factor(u, 3, index, totalDocs) == Parsed(nb, 5);
    assert Term(u, 3, index, totalDocs) == Parsed(nb, 5);
    assert Factor(u, 0, index, totalDocs) == Parsed(na, 2);
    assert TermRest(u, Parsed(na, 2), index, totalDocs) == Parsed(na, 2);
    assert Term(u, 0, index, totalDocs) == Parsed(na, 2);
    assert ExpressionRest(u, Parsed(na, 2), index, totalDocs) == Parsed(Union(na, nb), 5);
    DeMorganAnd(la, lb, totalDocs);
  }

  /**
   * `!` is fully recursive: `!!a` is the set of `a`'s documents when its
   * posting list is strictly ascending and within `[0, totalDocs)`.
   */
  lemma DoubleNegation(a: Str, index: seq<TermRecord>, totalDocs: int)
    requires IsTermToken(a)
    requires StrictlyAscending(Lookup(a, index))
    requires forall x :: x in Lookup(a, index) ==> 0 <= x < totalDocs
    ensures Expression(["!", "!", a], 0, index, totalDocs).ids == Lookup(a, index)
  {
    var la := Lookup(a, index);
    var twice := Complement(Complement(la, totalDocs), totalDocs);
    var t := ["!", "!", a];
    FactorAtTerm(t, 2, index, totalDocs);
    RestStops(t, Parsed(twice, 3), index, totalDocs);
    assert Factor(t, 1, index, totalDocs) == Parsed(Complement(la, totalDocs), 3);
    assert Factor(t, 0, index, totalDocs) == Parsed(twice, 3);
    assert Term(t, 0, index, totalDocs) == Parsed(twice, 3);
    ComplementIsSetDifference(la, totalDocs);
    ComplementIsSetDifference(Complement(la, totalDocs), totalDocs);
    AscendingByMembers(twice, la);
  }

  /**
   * Malformed queries are never errors: a missing `)` is tolerated, parsing
   * stops at the first token that continues no expression (the rest is
   * ignored), an operator with nothing after it meets the empty set, and a
   * stray `)` in factor position is looked up as a term.
   */
  lemma Leniency(a: Str, b: Str, index: seq<TermRecord>, totalDocs: int)
    requires IsTermToken(a) && IsTermToken(b)
    ensures Expression(["(", a], 0, index, totalDocs) == Parsed(Lookup(a, index), 2)
    ensures Expression([a, ")", b], 0, index, totalDocs) == Parsed(Lookup(a, index), 1)
    ensures Expression([a, "&&"], 0, index, totalDocs) == Parsed(Intersect(Lookup(a, index), []), 2)
    ensures Expression([")"], 0, index, totalDocs) == Parsed(Lookup(")", index), 1)
    ensures Expression([], 0, index, totalDocs) == Parsed([], 0)
  {
    var la := Lookup(a, index);
    var t1 := ["(", a];
    FactorAtTerm(t1, 1, index, totalDocs);
    RestStops(t1, Parsed(la, 2), index, totalDocs);
    assert Expression(t1, 1, index, totalDocs) == Parsed(la, 2);
    assert Factor(t1, 0, index, totalDocs) == Parsed(la, 2);
    assert Term(t1, 0, index, totalDocs) == Parsed(la, 2);

    var t2 := [a, ")", b];
    FactorAtTerm(t2, 0, index, totalDocs);
    RestStops(t2, Parsed(la, 1), index, totalDocs);
    assert Term(t2, 0, index, totalDocs) == Parsed(la, 1);

    var t3 := [a, "&&"];
    FactorAtTerm(t3, 0, index, totalDocs);
    RestStops(t3, Parsed(Intersect(la, []), 2), index, totalDocs);
    assert TermRest(t3, Parsed(la, 1), index, totalDocs) == Parsed(Intersect(la, []), 2);
    assert Term(t3, 0, index, totalDocs) == Parsed(Intersect(la, []), 2);

    var t4: seq<Str> := [")"];
    RestStops(t4, Parsed(Lookup(")", index), 1), index, totalDocs);
    assert Term(t4, 0, index, totalDocs) == Parsed(Lookup(")", index), 1);
    var t5: seq<Str> := [];
    assert Term(t5, 0, index, totalDocs) == Parsed([], 0);
  }

  // ---------------------------------------------------------------------------
  // Whole queries

  /** One more byte of query is one more step of the tokenizer's loop. */
  lemma ScanAppend(q: Str, c: Char8)
    ensures ScanAll(q + [c]) == Step(ScanAll(q), c)
  {
    assert (q + [c])[..|q|] == q;
  }

  /** The space after "cat" emits it and leaves nothing pending. */
  lemma CatSpaceScan()
    ensures ScanAll("cat ") == Scan(["cat"], [])
  {
    var cat: Str := "cat";
    ScanTermChars(cat);
    ScanAppend(cat, ' ');
    assert cat + [' '] == "cat ";
  }

  /** `cat dog` is two term tokens. */
  lemma CatDogTokens()
    ensures QueryTokens("cat dog") == ["cat", "dog"]
  {
    var q4: Str := "cat ";
    CatSpaceScan();
    var q5 := q4 + ['d'];
    ScanAppend(q4, 'd');
    var q6 := q5 + ['o'];
    ScanAppend(q5, 'o');
    var q7 := q6 + ['g'];
    ScanAppend(q6, 'g');
    assert ScanAll(q7) == Scan(["cat"], "dog");
    assert q7 == "cat dog";
  }

  /**
   * There is no implicit AND: the tokenizer drops the space, so `cat dog`
   * finds exactly the documents of `cat` and `dog` is ignored.
   */
  lemma NoImplicitAnd(index: seq<TermRecord>, forward: seq<DocRecord>)
    ensures Search("cat dog", index, forward) == Lookup("cat", index)
  {
    CatDogTokens();
    var t: seq<Str> := ["cat", "dog"];
    assert IsTermToken(t[0]) && IsTermToken(t[1]);
    FactorAtTerm(t, 0, index, |forward|);
    RestStops(t, Parsed(Lookup("cat", index), 1), index, |forward|);
    assert Term(t, 0, index, |forward|) == Parsed(Lookup("cat", index), 1);
  }
}
