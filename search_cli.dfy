/**
 * The search tool's command line (`main` and `print_results_cli` in
 * search.cpp): one argument, the query; both index files loaded; the query
 * evaluated; then the count of results and one line per result whose id is
 * a position of the forward table.
 *
 * The files' bytes are parameters (`None` when a file cannot be opened).
 * The elapsed-time line is left out; the printed lines are modelled by the
 * forward records they show.
 */
module SearchCli {
  import opened Common
  import opened Records
  import opened Codec
  import opened IndexLoader
  import opened QueryEval

  /** The records whose `title | url` lines are printed for `ids`, in order. */
  function Printed(ids: seq<int>, forward: seq<DocRecord>): seq<DocRecord>
  {
    if ids == [] then []
    else
      var id := ids[|ids| - 1];
      Printed(ids[..|ids| - 1], forward) + (if 0 <= id < |forward| then [forward[id]] else [])
  }

  /**
   * A result id is shown as the forward record at that position; ids outside
   * the table are passed over, so no more lines than results are printed, and
   * exactly as many when every id is in range.
   */
  lemma {:induction false} PrintedMeaning(ids: seq<int>, forward: seq<DocRecord>)
    ensures |Printed(ids, forward)| <= |ids|
    ensures (forall i :: 0 <= i < |ids| ==> 0 <= ids[i] < |forward|) ==> |Printed(ids, forward)| == |ids|
    ensures forall d :: d in Printed(ids, forward) <==> exists i :: 0 <= i < |ids| && 0 <= ids[i] < |forward| && d == forward[ids[i]]
    decreases |ids|
  {
    if ids != [] {
      var init := ids[..|ids| - 1];
      PrintedMeaning(init, forward);
      assert forall i :: 0 <= i < |init| ==> init[i] == ids[i];
      forall d
        ensures d in Printed(ids, forward) <==> exists i :: 0 <= i < |ids| && 0 <= ids[i] < |forward| && d == forward[ids[i]]
      {
        if d in Printed(ids, forward) && d !in Printed(init, forward) {
          var i := |ids| - 1;
          assert 0 <= ids[i] < |forward| && d == forward[ids[i]];
        }
      }
    }
  }

  /** When every id is a position of the forward table, the lines are the records at those positions. */
  lemma {:induction false} PrintedInRange(ids: seq<int>, forward: seq<DocRecord>)
    requires forall i :: 0 <= i < |ids| ==> 0 <= ids[i] < |forward|
    ensures |Printed(ids, forward)| == |ids|
    ensures forall i :: 0 <= i < |ids| ==> Printed(ids, forward)[i] == forward[ids[i]]
    decreases |ids|
  {
    if ids != [] {
      PrintedInRange(ids[..|ids| - 1], forward);
    }
  }

  /** `print_results_cli`: a line for each result id that passes the bounds check. */
  method PrintResults(ids: seq<int>, forward: seq<DocRecord>) returns (lines: seq<DocRecord>)
    ensures lines == Printed(ids, forward)
  {
    lines := [];
    for k := 0 to |ids|
      invariant lines == Printed(ids[..k], forward)
    {
      assert ids[..k + 1][..k] == ids[..k];
      var id := ids[k];
      if id >= 0 && id < |forward| {
        lines := lines + [forward[id]];
      }
    }
    assert ids[..|ids|] == ids;
  }

  /** What a run prints and returns: exit code, the "found" count and the result lines. */
  datatype SearchOutcome = SearchOutcome(exitCode: int, found: nat, lines: seq<DocRecord>)

  /**
   * A run of the search tool on the argument vector `args` (the program name
   * first). A wrong argument count, an index that fails to load, or an empty
   * index table ends the run with exit code 1 and no result.
   */
  function SearchRun(args: seq<Str>, invertedFile: Option<seq<Byte>>, forwardFile: Option<seq<Byte>>): SearchOutcome
  {
    if |args| != 2 then SearchOutcome(1, 0, [])
    else
      var inverted := if invertedFile.None? then Some([]) else DecodeInverted(invertedFile.value);
      var forward := if forwardFile.None? then Some([]) else DecodeForward(forwardFile.value);
      if inverted.None? || forward.None? || inverted.value == [] || forward.value == [] then SearchOutcome(1, 0, [])
      else
        var results := Search(args[1], inverted.value, forward.value);
        SearchOutcome(0, |results|, Printed(results, forward.value))
  }

  /** `main` of search.cpp, with the two index files' bytes as parameters. */
  method RunSearch(args: seq<Str>, invertedFile: Option<seq<Byte>>, forwardFile: Option<seq<Byte>>) returns (outcome: SearchOutcome)
    ensures outcome == SearchRun(args, invertedFile, forwardFile)
  {
    if |args| != 2 {
      return SearchOutcome(1, 0, []);
    }
    var query := args[1];
    var inverted := LoadInvertedIndex(invertedFile);
    var forward := LoadForwardIndex(forwardFile);
    if inverted.None? || forward.None? || |inverted.value| == 0 || |forward.value| == 0 {
      return SearchOutcome(1, 0, []);
    }
    var results := ExecuteSearch(query, inverted.value, forward.value);
    var lines := PrintResults(results, forward.value);
    return SearchOutcome(0, |results|, lines);
  }

  /**
   * The run succeeds exactly when there is one argument and both files
   * decode to non-empty tables; a missing index file is an empty table and
   * so fails the run.
   */
  lemma SearchExitCode(args: seq<Str>, invertedFile: Option<seq<Byte>>, forwardFile: Option<seq<Byte>>)
    ensures var o := SearchRun(args, invertedFile, forwardFile);
      && (o.exitCode == 0 <==>
          && |args| == 2 && invertedFile.Some? && forwardFile.Some?
          && DecodeInverted(invertedFile.value).Some? && DecodeInverted(invertedFile.value).value != []
          && DecodeForward(forwardFile.value).Some? && DecodeForward(forwardFile.value).value != [])
      && (o.exitCode != 0 ==> o.exitCode == 1 && o.found == 0 && o.lines == [])
      && |o.lines| <= o.found
  {
    var o := SearchRun(args, invertedFile, forwardFile);
    if o.exitCode == 0 {
      var forward := DecodeForward(forwardFile.value).value;
      PrintedMeaning(Search(args[1], DecodeInverted(invertedFile.value).value, forward), forward);
    }
  }
}
