/**
 * The two programs together: the index files written by the indexer
 * (index.cpp) are read back by the search tool (search.cpp). These lemmas
 * follow a corpus through both: what the written files decode to, and what
 * a one-term search over them finds and prints.
 */
module Pipeline {
  import opened Common
  import opened Records
  import opened Codec
  import opened Sorting
  import opened IndexBuilder
  import opened QueryTokenizer
  import opened QueryEval
  import opened SearchCli
  import opened DocTokenizer
  import opened PostingOps

  /** The tables built from a corpus whose sizes and ids fit the files' int32 fields. */
  predicate FitsInt32(filenames: seq<Str>, files: map<Str, Str>)
  {
    var built := Indexed(filenames, files, |filenames|);
    |filenames| <= TwoTo31 && ValidInverted(built.inverted) && ValidForward(built.forward)
  }

  /** Sorting keeps a table within the int32 fields. */
  lemma SortedTableValid(table: seq<TermRecord>)
    requires ValidInverted(table)
    ensures ValidInverted(SortedTable(table))
  {
    var sorted := SortedTable(table);
    SortByPermutes(table, TermKey);
    forall k | 0 <= k < |sorted|
      ensures ValidTerm(sorted[k])
    {
      assert sorted[k] in multiset(table);
    }
  }

  /** A successful indexer run writes files that decode back to its sorted term table and its forward table. */
  lemma IndexFilesDecode(dir: Option<seq<Str>>, files: map<Str, Str>)
    requires ListedFiles(dir) != [] && FitsInt32(ListedFiles(dir), files)
    ensures var built := Indexed(ListedFiles(dir), files, |ListedFiles(dir)|);
      var o := Indexer(dir, files, true, true);
      && o.exitCode == 0 && o.invertedFile.Some? && o.forwardFile.Some?
      && DecodeInverted(o.invertedFile.value) == Some(SortedTable(built.inverted))
      && DecodeForward(o.forwardFile.value) == Some(built.forward)
  {
    var built := Indexed(ListedFiles(dir), files, |ListedFiles(dir)|);
    SortedTableValid(built.inverted);
    assert EncodeInverted(SortedTable(built.inverted)) + [] == EncodeInverted(SortedTable(built.inverted));
    assert EncodeForward(built.forward) + [] == EncodeForward(built.forward);
    InvertedRoundTrip(SortedTable(built.inverted), []);
    ForwardRoundTrip(built.forward, []);
  }

  /**
   * What the written term table holds: terms strictly ascending, and each
   * term's postings are its occurrences in the corpus, in file order.
   */
  lemma SortedTableOfCorpus(filenames: seq<Str>, files: map<Str, Str>, t: Str)
    ensures var sorted := SortedTable(Indexed(filenames, files, |filenames|).inverted);
      && StrictlySortedBy(sorted, TermKey)
      && Lookup(t, sorted) == Occurrences(filenames, files, |filenames|, t)
  {
    var n := |filenames|;
    IndexedUnique(filenames, files, n);
    SortedTableMeaning(Indexed(filenames, files, n).inverted, t);
    IndexedPostings(filenames, files, n, t);
  }

  /** The search tool run on the indexer's files searches the sorted term table and the forward table. */
  lemma SearchOnIndexFiles(dir: Option<seq<Str>>, files: map<Str, Str>, args: seq<Str>)
    requires ListedFiles(dir) != [] && FitsInt32(ListedFiles(dir), files)
    ensures var built := Indexed(ListedFiles(dir), files, |ListedFiles(dir)|);
      var o := Indexer(dir, files, true, true);
      var r := SearchRun(args, o.invertedFile, o.forwardFile);
      r == if |args| != 2 || built.inverted == [] || built.forward == [] then SearchOutcome(1, 0, [])
           else
             var results := Search(args[1], SortedTable(built.inverted), built.forward);
             SearchOutcome(0, |results|, Printed(results, built.forward))
  {
    IndexFilesDecode(dir, files);
  }

  /**
   * Searching one term over the indexer's files: the run succeeds when both
   * tables are non-empty, and then it counts the term's occurrences.
   */
  lemma IndexThenSearchOneTerm(dir: Option<seq<Str>>, files: map<Str, Str>, program: Str, q: Str)
    requires ListedFiles(dir) != [] && FitsInt32(ListedFiles(dir), files)
    requires IsTermToken(q)
    ensures var n := |ListedFiles(dir)|;
      var built := Indexed(ListedFiles(dir), files, n);
      var o := Indexer(dir, files, true, true);
      var r := SearchRun([program, q], o.invertedFile, o.forwardFile);
      && (r.exitCode == 0 <==> built.inverted != [] && built.forward != [])
      && (r.exitCode == 0 ==> r.found == |Occurrences(ListedFiles(dir), files, n, q)|)
  {
    var filenames := ListedFiles(dir);
    var built := Indexed(filenames, files, |filenames|);
    SearchOnIndexFiles(dir, files, [program, q]);
    OneTermSearch(q, SortedTable(built.inverted), built.forward);
    SortedTableOfCorpus(filenames, files, q);
  }

  /**
   * When every listed file could be opened, a one-term search prints one
   * line per occurrence of the term, each the record of the file the id
   * came from: its position, title and URL.
   */
  lemma IndexThenSearchOneTermLines(dir: Option<seq<Str>>, files: map<Str, Str>, program: Str, q: Str)
    requires ListedFiles(dir) != [] && FitsInt32(ListedFiles(dir), files)
    requires IsTermToken(q)
    requires forall j :: 0 <= j < |ListedFiles(dir)| ==> ListedFiles(dir)[j] in files
    ensures var filenames := ListedFiles(dir);
      var n := |filenames|;
      var o := Indexer(dir, files, true, true);
      var r := SearchRun([program, q], o.invertedFile, o.forwardFile);
      var occ := Occurrences(filenames, files, n, q);
      r.exitCode == 0 ==>
        && |r.lines| == |occ|
        && forall i :: 0 <= i < |occ| ==> r.lines[i].docId == occ[i] && RecordOfFile(r.lines[i], filenames, files, n)
  {
    var filenames := ListedFiles(dir);
    var n := |filenames|;
    var built := Indexed(filenames, files, n);
    var occ := Occurrences(filenames, files, n, q);
    SearchOnIndexFiles(dir, files, [program, q]);
    OneTermSearch(q, SortedTable(built.inverted), built.forward);
    SortedTableOfCorpus(filenames, files, q);
    AllOpenedIdsArePositions(filenames, files, n);
    OccurrencesOrdered(filenames, files, n, q);
    PrintedInRange(occ, built.forward);
    IndexedForward(filenames, files, n);
  }

  /** The listing of the corpus of `SkippedFileHidesResult`. */
  lemma GapCorpusListed()
    ensures ListedFiles(Some(["a.txt", "b.txt"])) == ["a.txt", "b.txt"]
  {
    var filenames: seq<Str> := ["a.txt", "b.txt"];
    assert TxtEntries(filenames) == filenames;
    assert !StrLess("b.txt", "a.txt");
    assert SortBy(filenames[1..], NameKey) == filenames[1..];
  }

  /** The only file that opens, "b.txt", holds one term. */
  lemma GapCorpusFile()
    ensures Tokens("xx") == ["xx"]
    ensures Title("b.txt") == "b"
  {
    FlushAtEnd("xx");
    assert Lowered("xx") == "xx";
    TitleOfTxtName("b.txt");
  }

  /** The tables of the corpus of `SkippedFileHidesResult`. */
  lemma GapCorpusTables()
    ensures Indexed(["a.txt", "b.txt"], map["b.txt" := "xx"], 2)
         == Tables([TermRecord("xx", [1])], [DocRecord(1, "b", Url("b"))])
  {
    var files := map["b.txt" := "xx"];
    var filenames: seq<Str> := ["a.txt", "b.txt"];
    assert Indexed(filenames, files, 1) == Tables([], []);
    GapCorpusFile();
    assert AddPostings([], ["xx"], 1) == [TermRecord("xx", [1])];
    assert DocId(1) == 1 && files["b.txt"] == "xx";
  }

  /**
   * A file that cannot be opened leaves a gap in the doc ids, and the forward
   * table is indexed by position: here "b.txt" gets id 1 but its record is at
   * position 0, so a search for its term counts one result and prints none.
   */
  lemma SkippedFileHidesResult(program: Str)
    ensures var dir := Some(["a.txt", "b.txt"]);
      var files := map["b.txt" := "xx"];
      var o := Indexer(dir, files, true, true);
      SearchRun([program, "xx"], o.invertedFile, o.forwardFile) == SearchOutcome(0, 1, [])
  {
    GapCorpusRun(program, "xx");
    GapCorpusSearch();
  }

  /** Any query over the indexer's files of that corpus searches its two one-record tables. */
  lemma GapCorpusRun(program: Str, q: Str)
    ensures var o := Indexer(Some(["a.txt", "b.txt"]), map["b.txt" := "xx"], true, true);
      var forward := [DocRecord(1, "b", Url("b"))];
      var results := Search(q, [TermRecord("xx", [1])], forward);
      SearchRun([program, q], o.invertedFile, o.forwardFile) == SearchOutcome(0, |results|, Printed(results, forward))
  {
    var dir := Some(["a.txt", "b.txt"]);
    var files := map["b.txt" := "xx"];
    var rec := TermRecord("xx", [1]);
    GapCorpusListed();
    GapCorpusTables();
    assert SortedTable([rec]) == [rec];
    GapCorpusFits();
    SearchOnIndexFiles(dir, files, [program, q]);
  }

  /** The tables of the corpus of `SkippedFileHidesResult` fit the int32 fields. */
  lemma GapCorpusFits()
    ensures FitsInt32(["a.txt", "b.txt"], map["b.txt" := "xx"])
  {
    GapCorpusTables();
  }

  /** Over those tables the search for "xx" finds id 1, which is no position of the one-record forward table. */
  lemma GapCorpusSearch()
    ensures Search("xx", [TermRecord("xx", [1])], [DocRecord(1, "b", Url("b"))]) == [1]
    ensures Printed([1], [DocRecord(1, "b", Url("b"))]) == []
  {
    var rec := TermRecord("xx", [1]);
    var doc := DocRecord(1, "b", Url("b"));
    assert IsTermToken("xx");
    OneTermSearch("xx", [rec], [doc]);
    assert Printed([1], [doc]) == [];
  }

  /**
   * The gap also shrinks the universe of `!`: it is the size of the forward
   * table, so over the corpus of `SkippedFileHidesResult` the query "!zz"
   * finds only id 0, the file that could not be opened, misses id 1, and
   * prints the record of "b.txt" for it.
   */
  lemma SkippedFileShrinksNegation(program: Str)
    ensures var dir := Some(["a.txt", "b.txt"]);
      var files := map["b.txt" := "xx"];
      var o := Indexer(dir, files, true, true);
      SearchRun([program, "!zz"], o.invertedFile, o.forwardFile)
        == SearchOutcome(0, 1, [DocRecord(1, "b", Url("b"))])
  {
    GapCorpusRun(program, "!zz");
    GapCorpusNegation();
  }

  /** "!zz" is the operator `!` followed by the term "zz". */
  lemma NotZzTokens()
    ensures QueryTokens("!zz") == ["!", "zz"]
  {
    var w: Str := "zz";
    assert IsTermChar(w[0]) && IsTermChar(w[1]);
    ScanOperatorThenTerm('!', w);
    assert ['!'] + w == "!zz";
  }

  /** Over the one-record forward table, "!zz" is the complement of nothing in `[0, 1)`. */
  lemma GapCorpusNegation()
    ensures Search("!zz", [TermRecord("xx", [1])], [DocRecord(1, "b", Url("b"))]) == [0]
    ensures Printed([0], [DocRecord(1, "b", Url("b"))]) == [DocRecord(1, "b", Url("b"))]
  {
    var index := [TermRecord("xx", [1])];
    var doc := DocRecord(1, "b", Url("b"));
    NotZzTokens();
    var t: seq<Str> := ["!", "zz"];
    assert IsTermToken(t[1]);
    FactorAtTerm(t, 1, index, 1);
    assert Lookup("zz", index) == [];
    assert Complement([], 1) == [0];
    assert Factor(t, 0, index, 1) == Parsed([0], 2);
    RestStops(t, Parsed([0], 2), index, 1);
    assert Term(t, 0, index, 1) == Parsed([0], 2);
    assert Printed([0], [doc]) == [doc];
  }
}
