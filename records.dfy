/**
 * The two record kinds shared by the indexer and the search tool (the
 * identical `TermRecord` and `DocRecord` structs of index.cpp and
 * search.cpp), and term lookup in a term table.
 */
module Records {
  import opened Common

  /** One entry of the inverted index: a term and its posting list. */
  datatype TermRecord = TermRecord(term: Str, docIds: seq<int>)

  /** One entry of the forward index. */
  datatype DocRecord = DocRecord(docId: int, title: Str, url: Str)

  predicate HasTerm(table: seq<TermRecord>, t: Str)
  {
    exists k :: 0 <= k < |table| && table[k].term == t
  }

  /** No two records of the table share a term. */
  predicate UniqueTerms(table: seq<TermRecord>)
  {
    forall i, j :: 0 <= i < j < |table| ==> table[i].term != table[j].term
  }

  /** Index of the first record whose term is `t`, or `|table|` when there is none. */
  function FirstIndex(table: seq<TermRecord>, t: Str): (k: nat)
    ensures k <= |table|
    ensures forall m :: 0 <= m < k ==> table[m].term != t
    ensures k < |table| ==> table[k].term == t
    ensures k == |table| <==> !HasTerm(table, t)
  {
    if table == [] then 0
    else if table[0].term == t then 0
    else 1 + FirstIndex(table[1..], t)
  }

  /**
   * The posting list of `t`: that of the first record with term `t`, or the
   * empty list when the table has no such record.
   */
  function Lookup(t: Str, table: seq<TermRecord>): seq<int>
  {
    var k := FirstIndex(table, t);
    if k < |table| then table[k].docIds else []
  }

  /** In a table with unique terms, the record at `k` is the one lookup finds for its term. */
  lemma LookupUnique(table: seq<TermRecord>, k: nat)
    requires UniqueTerms(table) && k < |table|
    ensures Lookup(table[k].term, table) == table[k].docIds
  {
  }
}
