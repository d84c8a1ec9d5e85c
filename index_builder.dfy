/**
 * The indexer (index.cpp): list the `.txt` files of the corpus directory in
 * sorted order, give each the position in that list as its doc id, record a
 * title and URL per file that can be opened, add one posting per token
 * occurrence to a term table kept in first-seen order, sort the table by
 * term and write both tables to their files.
 *
 * The directory is a parameter (`None` when it cannot be opened, otherwise
 * its entry names in any order), as is the content of each file (a map from
 * file name to content; a name missing from the map is a file that cannot
 * be opened).
 */
module IndexBuilder {
  import opened Common
  import opened Records
  import opened Sorting
  import opened DocTokenizer
  import opened Codec

  // ---------------------------------------------------------------------------
  // Listing the corpus

  /** A name `list_txt_files` keeps: longer than four bytes and ending in ".txt". */
  predicate IsTxtName(name: Str)
  {
    |name| > 4 && name[|name| - 4..] == ".txt"
  }

  /** The `.txt` entries of a directory, in directory order. */
  function TxtEntries(entries: seq<Str>): seq<Str>
  {
    if entries == [] then []
    else
      var last := entries[|entries| - 1];
      TxtEntries(entries[..|entries| - 1]) + (if IsTxtName(last) then [last] else [])
  }

  function NameKey(name: Str): Str { name }

  /** What `list_txt_files` returns: no file when the directory cannot be opened. */
  function ListedFiles(dir: Option<seq<Str>>): seq<Str>
  {
    match dir
    case None => []
    case Some(entries) => SortBy(TxtEntries(entries), NameKey)
  }

  lemma {:induction false} TxtEntriesMembers(entries: seq<Str>)
    ensures forall f :: f in TxtEntries(entries) <==> f in entries && IsTxtName(f)
    decreases |entries|
  {
    if entries != [] {
      var init := entries[..|entries| - 1];
      TxtEntriesMembers(init);
      assert entries == init + [entries[|entries| - 1]];
    }
  }

  /**
   * The listed files are exactly the directory's `.txt` entries, each as
   * often as the directory holds it, in ascending byte order.
   */
  lemma ListedFilesMeaning(entries: seq<Str>)
    ensures forall f :: f in ListedFiles(Some(entries)) <==> f in entries && IsTxtName(f)
    ensures multiset(ListedFiles(Some(entries))) == multiset(TxtEntries(entries))
    ensures SortedBy(ListedFiles(Some(entries)), NameKey)
  {
    var files := ListedFiles(Some(entries));
    TxtEntriesMembers(entries);
    SortByPermutes(TxtEntries(entries), NameKey);
    SortBySorted(TxtEntries(entries), NameKey);
    forall f
      ensures f in files <==> f in TxtEntries(entries)
    {
      assert f in files <==> f in multiset(files);
      assert f in TxtEntries(entries) <==> f in multiset(TxtEntries(entries));
    }
  }

  /** `list_txt_files` (index.cpp): one pass over the entries, then `std::sort`. */
  method ListTxtFiles(dir: Option<seq<Str>>) returns (files: seq<Str>)
    ensures files == ListedFiles(dir)
  {
    if dir.None? {
      return [];
    }
    var entries := dir.value;
    files := [];
    for i := 0 to |entries|
      invariant files == TxtEntries(entries[..i])
    {
      assert entries[..i + 1][..i] == entries[..i];
      var name := entries[i];
      if name == "." || name == ".." {
        continue;
      }
      if |name| > 4 && name[|name| - 4..] == ".txt" {
        files := files + [name];
      }
    }
    assert entries[..|entries|] == entries;
    files := SortBy(files, NameKey);
  }

  // ---------------------------------------------------------------------------
  // Titles and URLs

  /** Index of the first '.' of `s`, or `|s|` when there is none. */
  function DotIndex(s: Str): (k: nat)
    ensures k <= |s|
    ensures forall i :: 0 <= i < k ==> s[i] != '.'
    ensures k < |s| ==> s[k] == '.'
  {
    if s == [] || s[0] == '.' then 0 else 1 + DotIndex(s[1..])
  }

  /** The title of a file: its name up to the first '.', or the whole name when it has none. */
  function Title(filename: Str): Str
  {
    filename[..DotIndex(filename)]
  }

  const UrlPrefix: Str := "https://en.wikipedia.org/wiki/"

  function Url(title: Str): Str
  {
    UrlPrefix + title
  }

  /** A title is the longest prefix of the name without a '.'. */
  lemma TitleMeaning(filename: Str)
    ensures Title(filename) <= filename
    ensures '.' !in Title(filename)
    ensures |Title(filename)| < |filename| ==> filename[|Title(filename)|] == '.'
  {
  }

  /** A name whose only '.' is that of its ".txt" suffix has the name without the suffix as title. */
  lemma TitleOfTxtName(filename: Str)
    requires IsTxtName(filename)
    requires '.' !in filename[..|filename| - 4]
    ensures Title(filename) == filename[..|filename| - 4]
  {
    var k := |filename| - 4;
    assert filename[k] == filename[k..][0] == '.';
    forall i | 0 <= i < k
      ensures filename[i] != '.'
    {
      assert filename[i] == filename[..k][i];
    }
  }

  // ---------------------------------------------------------------------------
  // The term table: one record per term, in first-seen order

  function Repeat(x: int, n: nat): (r: seq<int>)
    ensures |r| == n && forall i :: 0 <= i < n ==> r[i] == x
  {
    seq(n, _ => x)
  }

  /**
   * One occurrence of `token` in document `id`: the id is appended to the
   * first record of that term, or a new record is appended to the table.
   */
  function AddPosting(table: seq<TermRecord>, token: Str, id: int): seq<TermRecord>
  {
    var k := FirstIndex(table, token);
    if k < |table| then table[k := TermRecord(token, table[k].docIds + [id])]
    else table + [TermRecord(token, [id])]
  }

  /** All occurrences of a document's tokens, in order. */
  function AddPostings(table: seq<TermRecord>, tokens: seq<Str>, id: int): seq<TermRecord>
  {
    if tokens == [] then table
    else AddPosting(AddPostings(table, tokens[..|tokens| - 1], id), tokens[|tokens| - 1], id)
  }

  lemma FirstIndexIs(table: seq<TermRecord>, t: Str, j: nat)
    requires j <= |table|
    requires forall m :: 0 <= m < j ==> table[m].term != t
    requires j < |table| ==> table[j].term == t
    ensures FirstIndex(table, t) == j
  {
  }

  /** The records keep their terms; a new term's record comes last. */
  lemma AddPostingTerms(table: seq<TermRecord>, token: Str, id: int)
    ensures var r := AddPosting(table, token, id);
      && |r| == (if HasTerm(table, token) then |table| else |table| + 1)
      && (forall i :: 0 <= i < |table| ==> r[i].term == table[i].term)
      && (!HasTerm(table, token) ==> r[|table|].term == token)
  {
  }

  /** The posting list of `token` gains `id` at its end; every other posting list is unchanged. */
  lemma LookupAddPosting(table: seq<TermRecord>, token: Str, id: int, t: Str)
    ensures Lookup(t, AddPosting(table, token, id)) == Lookup(t, table) + (if t == token then [id] else [])
  {
    var r := AddPosting(table, token, id);
    AddPostingTerms(table, token, id);
    var j := FirstIndex(table, t);
    if j < |table| {
      FirstIndexIs(r, t, j);
    } else if t == token {
      FirstIndexIs(r, t, |table|);
    } else {
      FirstIndexIs(r, t, |r|);
    }
  }

  lemma AddPostingUnique(table: seq<TermRecord>, token: Str, id: int)
    requires UniqueTerms(table)
    ensures UniqueTerms(AddPosting(table, token, id))
  {
    AddPostingTerms(table, token, id);
  }

  /** A term's postings grow by the document's id once per occurrence of the term among its tokens. */
  lemma {:induction false} LookupAddPostings(table: seq<TermRecord>, tokens: seq<Str>, id: int, t: Str)
    ensures Lookup(t, AddPostings(table, tokens, id)) == Lookup(t, table) + Repeat(id, multiset(tokens)[t])
    decreases |tokens|
  {
    if tokens == [] {
      assert Lookup(t, table) + Repeat(id, 0) == Lookup(t, table);
    } else {
      var init, last := tokens[..|tokens| - 1], tokens[|tokens| - 1];
      assert tokens == init + [last];
      LookupAddPostings(table, init, id, t);
      LookupAddPosting(AddPostings(table, init, id), last, id, t);
      var n := multiset(init)[t];
      assert multiset(tokens)[t] == n + (if t == last then 1 else 0);
      assert Repeat(id, n) + (if t == last then [id] else []) == Repeat(id, multiset(tokens)[t]);
    }
  }

  lemma {:induction false} AddPostingsUnique(table: seq<TermRecord>, tokens: seq<Str>, id: int)
    requires UniqueTerms(table)
    ensures UniqueTerms(AddPostings(table, tokens, id))
    decreases |tokens|
  {
    if tokens != [] {
      AddPostingsUnique(table, tokens[..|tokens| - 1], id);
      AddPostingUnique(AddPostings(table, tokens[..|tokens| - 1], id), tokens[|tokens| - 1], id);
    }
  }

  // ---------------------------------------------------------------------------
  // Documents

  /** Both tables as the build loop leaves them. */
  datatype Tables = Tables(inverted: seq<TermRecord>, forward: seq<DocRecord>)

  /** The doc id `static_cast<int>(doc_id)` stores for the file at position `k`. */
  function DocId(k: nat): int
  {
    Wrap32(k)
  }

  /**
   * One iteration of the build loop: a file that cannot be opened is skipped
   * (its doc id stays unused); otherwise it gets a forward record and its
   * tokens are added to the term table.
   */
  function AddDocument(tables: Tables, filename: Str, files: map<Str, Str>, k: nat): Tables
  {
    if filename !in files then tables
    else
      var title := Title(filename);
      Tables(AddPostings(tables.inverted, Tokens(files[filename]), DocId(k)),
             tables.forward + [DocRecord(DocId(k), title, Url(title))])
  }

  /** The tables after the first `m` files of the list. */
  function Indexed(filenames: seq<Str>, files: map<Str, Str>, m: nat): Tables
    requires m <= |filenames|
  {
    if m == 0 then Tables([], [])
    else AddDocument(Indexed(filenames, files, m - 1), filenames[m - 1], files, m - 1)
  }

  /** The ids a term's posting list must hold after `m` files: each file's id once per occurrence, in file order. */
  function Occurrences(filenames: seq<Str>, files: map<Str, Str>, m: nat, t: Str): seq<int>
    requires m <= |filenames|
  {
    if m == 0 then []
    else
      var f := filenames[m - 1];
      Occurrences(filenames, files, m - 1, t)
      + (if f in files then Repeat(DocId(m - 1), multiset(Tokens(files[f]))[t]) else [])
  }

  /**
   * The posting list of every term is its occurrences: postings are not
   * deduplicated, a document appears once per occurrence of the term.
   */
  lemma {:induction false} IndexedPostings(filenames: seq<Str>, files: map<Str, Str>, m: nat, t: Str)
    requires m <= |filenames|
    ensures Lookup(t, Indexed(filenames, files, m).inverted) == Occurrences(filenames, files, m, t)
  {
    if m > 0 {
      IndexedPostings(filenames, files, m - 1, t);
      var f := filenames[m - 1];
      if f in files {
        LookupAddPostings(Indexed(filenames, files, m - 1).inverted, Tokens(files[f]), DocId(m - 1), t);
      }
    }
  }

  /** The term table holds one record per term. */
  lemma {:induction false} IndexedUnique(filenames: seq<Str>, files: map<Str, Str>, m: nat)
    requires m <= |filenames|
    ensures UniqueTerms(Indexed(filenames, files, m).inverted)
  {
    if m > 0 {
      IndexedUnique(filenames, files, m - 1);
      var f := filenames[m - 1];
      if f in files {
        AddPostingsUnique(Indexed(filenames, files, m - 1).inverted, Tokens(files[f]), DocId(m - 1));
      }
    }
  }

  /** With fewer than 2^31 files, every posting list is ascending (repeats allowed) and holds ids of listed files. */
  lemma {:induction false} OccurrencesOrdered(filenames: seq<Str>, files: map<Str, Str>, m: nat, t: Str)
    requires m <= |filenames| && m <= TwoTo31
    ensures NonDecreasing(Occurrences(filenames, files, m, t))
    ensures forall i :: 0 <= i < |Occurrences(filenames, files, m, t)| ==> 0 <= Occurrences(filenames, files, m, t)[i] < m
  {
    if m > 0 {
      OccurrencesOrdered(filenames, files, m - 1, t);
      assert DocId(m - 1) == m - 1;
    }
  }

  /** A forward record as the build loop makes it for the file at position `k`. */
  predicate RecordOfFile(d: DocRecord, filenames: seq<Str>, files: map<Str, Str>, m: nat)
  {
    0 <= d.docId < m && d.docId < |filenames| && filenames[d.docId] in files
    && d.title == Title(filenames[d.docId]) && d.url == Url(d.title)
  }

  /** Some forward record carries doc id `k`. */
  predicate HasRecord(fwd: seq<DocRecord>, k: int)
  {
    exists i :: 0 <= i < |fwd| && fwd[i].docId == k
  }

  /**
   * Forward records with strictly ascending ids, each made from its file at a
   * position below `m`, and one for every file below `m` that could be opened.
   */
  predicate ForwardOf(fwd: seq<DocRecord>, filenames: seq<Str>, files: map<Str, Str>, m: nat)
  {
    && (forall i, j :: 0 <= i < j < |fwd| ==> fwd[i].docId < fwd[j].docId)
    && (forall i :: 0 <= i < |fwd| ==> RecordOfFile(fwd[i], filenames, files, m))
    && (forall k :: 0 <= k < m && k < |filenames| && filenames[k] in files ==> HasRecord(fwd, k))
  }

  /**
   * With fewer than 2^31 files, forward records come in file order with
   * ascending ids, each carrying its file's position, title and URL, and
   * every file that could be opened has its record.
   */
  lemma {:induction false} IndexedForward(filenames: seq<Str>, files: map<Str, Str>, m: nat)
    requires m <= |filenames| && m <= TwoTo31
    ensures ForwardOf(Indexed(filenames, files, m).forward, filenames, files, m)
  {
    if m > 0 {
      IndexedForward(filenames, files, m - 1);
      assert DocId(m - 1) == m - 1;
      var prev := Indexed(filenames, files, m - 1).forward;
      var fwd := Indexed(filenames, files, m).forward;
      var f := filenames[m - 1];
      if f in files {
        assert fwd == prev + [DocRecord(m - 1, Title(f), Url(Title(f)))];
        forall i | 0 <= i < |fwd|
          ensures RecordOfFile(fwd[i], filenames, files, m)
        {
          if i < |prev| {
            assert RecordOfFile(prev[i], filenames, files, m - 1);
          }
        }
        forall i, j | 0 <= i < j < |fwd|
          ensures fwd[i].docId < fwd[j].docId
        {
          assert RecordOfFile(prev[i], filenames, files, m - 1);
        }
        forall k | 0 <= k < m && k < |filenames| && filenames[k] in files
          ensures HasRecord(fwd, k)
        {
          if k < m - 1 {
            var i :| 0 <= i < |prev| && prev[i].docId == k;
            assert fwd[i] == prev[i];
          } else {
            assert fwd[|prev|].docId == k;
          }
        }
      } else {
        assert fwd == prev;
        forall i | 0 <= i < |fwd|
          ensures RecordOfFile(fwd[i], filenames, files, m)
        {
          assert RecordOfFile(prev[i], filenames, files, m - 1);
        }
        forall k | 0 <= k < m && k < |filenames| && filenames[k] in files
          ensures HasRecord(fwd, k)
        {
          assert k < m - 1;
        }
      }
    }
  }

  /** When every listed file can be opened, a doc id is the position of its record in the forward table. */
  lemma {:induction false} AllOpenedIdsArePositions(filenames: seq<Str>, files: map<Str, Str>, m: nat)
    requires m <= |filenames| && m <= TwoTo31
    requires forall j :: 0 <= j < m ==> filenames[j] in files
    ensures |Indexed(filenames, files, m).forward| == m
    ensures forall i :: 0 <= i < m ==> Indexed(filenames, files, m).forward[i].docId == i
  {
    if m > 0 {
      AllOpenedIdsArePositions(filenames, files, m - 1);
      assert DocId(m - 1) == m - 1;
    }
  }

  // ---------------------------------------------------------------------------
  // The build loop

  /** One file of the build loop: its forward record, then one posting per token occurrence. */
  method AddFile(inverted: seq<TermRecord>, forward: seq<DocRecord>, filename: Str, content: Str, docId: nat)
    returns (inverted': seq<TermRecord>, forward': seq<DocRecord>)
    ensures Tables(inverted', forward') == AddDocument(Tables(inverted, forward), filename, map[filename := content], docId)
  {
    var tokens := Tokenize(content);
    var id := DocId(docId);
    var dotPos := DotIndex(filename);
    var title := filename[..dotPos];
    forward' := forward + [DocRecord(id, title, UrlPrefix + title)];
    inverted' := inverted;
    for t := 0 to |tokens|
      invariant inverted' == AddPostings(inverted, tokens[..t], id)
    {
      var token := tokens[t];
      var found := false;
      var k := 0;
      while k < |inverted'|
        invariant 0 <= k <= |inverted'|
        invariant forall m :: 0 <= m < k ==> inverted'[m].term != token
      {
        if inverted'[k].term == token {
          found := true;
          break;
        }
        k := k + 1;
      }
      FirstIndexIs(inverted', token, k);
      if found {
        inverted' := inverted'[k := TermRecord(token, inverted'[k].docIds + [id])];
      } else {
        inverted' := inverted' + [TermRecord(token, [id])];
      }
      assert tokens[..t + 1][..t] == tokens[..t];
    }
    assert tokens[..|tokens|] == tokens;
  }

  /**
   * The loop over the listed files (index.cpp): the file at position `k`
   * gets doc id `k`, and a file that cannot be opened is skipped.
   */
  method BuildTables(filenames: seq<Str>, files: map<Str, Str>) returns (inverted: seq<TermRecord>, forward: seq<DocRecord>)
    ensures Tables(inverted, forward) == Indexed(filenames, files, |filenames|)
  {
    inverted, forward := [], [];
    for docId := 0 to |filenames|
      invariant Tables(inverted, forward) == Indexed(filenames, files, docId)
    {
      var filename := filenames[docId];
      if filename !in files {
        continue;
      }
      inverted, forward := AddFile(inverted, forward, filename, files[filename], docId);
    }
  }

  // ---------------------------------------------------------------------------
  // Sorting the term table by term (`compare_terms`)

  function TermKey(r: TermRecord): Str { r.term }

  /** The term table in ascending term order, as `std::sort` with `compare_terms` leaves it. */
  function SortedTable(table: seq<TermRecord>): seq<TermRecord>
  {
    SortBy(table, TermKey)
  }

  lemma UniqueTermsDistinct(table: seq<TermRecord>)
    ensures UniqueTerms(table) <==> DistinctKeys(table, TermKey)
  {
  }

  /**
   * Sorting a table with one record per term keeps its records, puts the
   * terms in strictly ascending order, and changes no term's posting list.
   */
  lemma SortedTableMeaning(table: seq<TermRecord>, t: Str)
    requires UniqueTerms(table)
    ensures multiset(SortedTable(table)) == multiset(table)
    ensures StrictlySortedBy(SortedTable(table), TermKey)
    ensures UniqueTerms(SortedTable(table))
    ensures Lookup(t, SortedTable(table)) == Lookup(t, table)
  {
    var sorted := SortedTable(table);
    UniqueTermsDistinct(table);
    SortByPermutes(table, TermKey);
    SortByStrict(table, TermKey);
    DistinctKeysPermutation(table, sorted, TermKey);
    UniqueTermsDistinct(sorted);
    if HasTerm(table, t) {
      var k := FirstIndex(table, t);
      assert table[k] in multiset(sorted);
      var j :| 0 <= j < |sorted| && sorted[j] == table[k];
      LookupUnique(table, k);
      LookupUnique(sorted, j);
    } else {
      forall j | 0 <= j < |sorted|
        ensures sorted[j].term != t
      {
        assert sorted[j] in multiset(table);
      }
    }
  }

  // ---------------------------------------------------------------------------
  // Writing the index files

  /** The writer's inner loop: one int32 per doc id, appended to what was written so far. */
  method WriteIds(head: seq<Byte>, ids: seq<int>) returns (out: seq<Byte>)
    ensures out == head + EncodeInts(ids)
  {
    out := head;
    for j := 0 to |ids|
      invariant out == head + EncodeInts(ids[..j])
    {
      EncodeIntsSnoc(ids[..j], ids[j]);
      assert ids[..j + 1] == ids[..j] + [ids[j]];
      out := out + EncodeInt32(ids[j]);
    }
    assert ids[..|ids|] == ids;
  }

  /** The encoding of a longer prefix of a term table extends the shorter one's by one record. */
  lemma EncodeTermsPrefix(table: seq<TermRecord>, k: nat)
    requires k < |table|
    ensures EncodeTerms(table[..k + 1]) == EncodeTerms(table[..k]) + EncodeTerm(table[k])
  {
    EncodeTermsSnoc(table[..k], table[k]);
    assert table[..k + 1] == table[..k] + [table[k]];
  }

  /** One record of inverted_index.bin: the term's length and bytes, the list's length, then the ids. */
  method WriteTerm(head: seq<Byte>, tr: TermRecord) returns (out: seq<Byte>)
    ensures out == head + EncodeTerm(tr)
  {
    var header := EncodeInt32(|tr.term|) + StrBytes(tr.term) + EncodeInt32(|tr.docIds|);
    out := WriteIds(head + header, tr.docIds);
  }

  /** The writer of inverted_index.bin: the count, then each record's fields in order. */
  method WriteInverted(table: seq<TermRecord>) returns (out: seq<Byte>)
    ensures out == EncodeInverted(table)
  {
    out := EncodeInt32(|table|);
    for k := 0 to |table|
      invariant out == EncodeInt32(|table|) + EncodeTerms(table[..k])
    {
      out := WriteTerm(out, table[k]);
      EncodeTermsPrefix(table, k);
    }
    assert table[..|table|] == table;
  }

  /** The encoding of a longer prefix of a forward table extends the shorter one's by one record. */
  lemma EncodeDocsPrefix(docs: seq<DocRecord>, k: nat)
    requires k < |docs|
    ensures EncodeDocs(docs[..k + 1]) == EncodeDocs(docs[..k]) + EncodeDoc(docs[k])
  {
    EncodeDocsSnoc(docs[..k], docs[k]);
    assert docs[..k + 1] == docs[..k] + [docs[k]];
  }

  /** One record of forward_index.bin: the id, then the title and the URL, each with its length. */
  method WriteDoc(head: seq<Byte>, dr: DocRecord) returns (out: seq<Byte>)
    ensures out == head + EncodeDoc(dr)
  {
    out := head + EncodeInt32(dr.docId) + EncodeInt32(|dr.title|) + StrBytes(dr.title) + EncodeInt32(|dr.url|) + StrBytes(dr.url);
  }

  /** The writer of forward_index.bin: the count, then each record's id, title and URL. */
  method WriteForward(docs: seq<DocRecord>) returns (out: seq<Byte>)
    ensures out == EncodeForward(docs)
  {
    out := EncodeInt32(|docs|);
    for k := 0 to |docs|
      invariant out == EncodeInt32(|docs|) + EncodeDocs(docs[..k])
    {
      out := WriteDoc(out, docs[k]);
      EncodeDocsPrefix(docs, k);
    }
    assert docs[..|docs|] == docs;
  }

  // ---------------------------------------------------------------------------
  // The indexer's `main`

  /**
   * What a run of the indexer leaves behind: its exit code and the bytes of
   * each index file it wrote (`None` for a file not written).
   */
  datatype IndexerOutcome = IndexerOutcome(exitCode: int, invertedFile: Option<seq<Byte>>, forwardFile: Option<seq<Byte>>)

  /**
   * A run of the indexer. No listed file is fatal; so is an output file that
   * cannot be created, the forward file being attempted only after the
   * inverted file was written.
   */
  function Indexer(dir: Option<seq<Str>>, files: map<Str, Str>, canCreateInverted: bool, canCreateForward: bool): IndexerOutcome
  {
    var filenames := ListedFiles(dir);
    if filenames == [] then IndexerOutcome(1, None, None)
    else
      var built := Indexed(filenames, files, |filenames|);
      var inverted := EncodeInverted(SortedTable(built.inverted));
      if !canCreateInverted then IndexerOutcome(1, None, None)
      else if !canCreateForward then IndexerOutcome(1, Some(inverted), None)
      else IndexerOutcome(0, Some(inverted), Some(EncodeForward(built.forward)))
  }

  /**
   * `main` of index.cpp. The corpus directory and the files' contents are
   * parameters, and so is whether each output file can be created.
   */
  method RunIndexer(dir: Option<seq<Str>>, files: map<Str, Str>, canCreateInverted: bool, canCreateForward: bool)
    returns (outcome: IndexerOutcome)
    ensures outcome == Indexer(dir, files, canCreateInverted, canCreateForward)
  {
    var filenames := ListTxtFiles(dir);
    if |filenames| == 0 {
      return IndexerOutcome(1, None, None);
    }
    var inverted, forward := BuildTables(filenames, files);
    inverted := SortBy(inverted, TermKey);
    if !canCreateInverted {
      return IndexerOutcome(1, None, None);
    }
    var invertedBytes := WriteInverted(inverted);
    if !canCreateForward {
      return IndexerOutcome(1, Some(invertedBytes), None);
    }
    var forwardBytes := WriteForward(forward);
    return IndexerOutcome(0, Some(invertedBytes), Some(forwardBytes));
  }

  /** The indexer succeeds exactly when it lists a file and can create both outputs; it writes the forward file only then. */
  lemma IndexerExitCode(dir: Option<seq<Str>>, files: map<Str, Str>, canCreateInverted: bool, canCreateForward: bool)
    ensures var o := Indexer(dir, files, canCreateInverted, canCreateForward);
      && (o.exitCode == 0 <==> ListedFiles(dir) != [] && canCreateInverted && canCreateForward)
      && (o.exitCode != 0 ==> o.exitCode == 1 && o.forwardFile.None?)
      && (o.invertedFile.Some? <==> ListedFiles(dir) != [] && canCreateInverted)
  {
  }

  lemma {:induction false} NoTxtEntries(entries: seq<Str>)
    requires forall k :: 0 <= k < |entries| ==> !IsTxtName(entries[k])
    ensures TxtEntries(entries) == []
    decreases |entries|
  {
    if entries != [] {
      NoTxtEntries(entries[..|entries| - 1]);
    }
  }

  /** A directory that cannot be opened, or holds no `.txt` entry, ends the run with exit code 1 and no file written. */
  lemma NoFilesFails(dir: Option<seq<Str>>, files: map<Str, Str>, canCreateInverted: bool, canCreateForward: bool)
    requires dir.None? || forall k :: 0 <= k < |dir.value| ==> !IsTxtName(dir.value[k])
    ensures Indexer(dir, files, canCreateInverted, canCreateForward) == IndexerOutcome(1, None, None)
  {
    if dir.Some? {
      NoTxtEntries(dir.value);
    }
  }
}
