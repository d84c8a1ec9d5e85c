# A verified model of a boolean retrieval engine

This project models the C++ core of a small boolean search engine over a corpus of plain-text
Wikipedia articles.

- **The indexer** (index.cpp):
  - lists the `.txt` files of the corpus directory in sorted order;
  - tokenizes each file;
  - builds an inverted index (term → posting list of doc ids) and a forward index
    (doc id → title and URL);
  - sorts the terms and writes both tables to two binary files.
- **The search tool** (search.cpp):
  - loads both files;
  - tokenizes a boolean query with `||`, `&&`, `!` and parentheses;
  - evaluates it with a recursive-descent evaluator over sorted posting lists;
  - prints the matching documents.
- **Two standalone utilities:** the tokenizer (tokenizer.cpp) and a suffix-stripping stemmer
  (stemmer.cpp).

## How the model is written

The model follows the program's own structure:

- Each loop of the source is a Dafny `method` with the same loop. It is proved against a
  function that states what it computes. The properties the program promises are then proved
  about those functions.
- Files, directories and command-line arguments are parameters:
  - a directory is `None` when it cannot be opened, otherwise its entry names;
  - file contents are a map from name to text, and a name missing from the map is a file that
    cannot be opened;
  - an index file is its bytes;
  - what a program writes is its result.

| file | module | models |
|---|---|---|
| common.dfy | `Common` | 8-bit characters, `to_lower`, `std::string`'s `<` |
| records.dfy | `Records` | `TermRecord`, `DocRecord`, term lookup |
| doc_tokenizer.dfy | `DocTokenizer` | `tokenize` of index.cpp |
| tokenizer_cli.dfy | `TokenizerCli` | `tokenize` of tokenizer.cpp |
| query_tokenizer.dfy | `QueryTokenizer` | `tokenize_query` |
| posting_ops.dfy | `PostingOps` | `and_op`, `or_op`, `not_op` |
| query_eval.dfy | `QueryEval` | `get_doc_ids`, `evaluate_*`, `execute_search` |
| codec.dfy | `Codec` | the binary layout of both index files |
| index_loader.dfy | `IndexLoader` | `load_inverted_index`, `load_forward_index` |
| sorting.dfy | `Sorting` | `std::sort` |
| index_builder.dfy | `IndexBuilder` | `list_txt_files`, the build loop, the writers, the indexer's `main` |
| search_cli.dfy | `SearchCli` | `print_results_cli`, the search tool's `main` |
| pipeline.dfy | `Pipeline` | the indexer's files read back by the search tool |
| stemmer.dfy | `Stemmer` | `is_vowel`, `is_consonant`, `remove_suffix`, `has_vowel_before_last_consonant`, `stem_word` |

## Behaviours the model follows from the code

The model follows the code as written, including these behaviours:

- **No deduplication of postings.** A document's id is appended once per occurrence of a term,
  not once per document (`IndexBuilder.IndexedPostings`).
- **No implicit AND.** The query tokenizer never emits a space token, so the implicit-AND branch
  of `evaluate_term` is unreachable: `cat dog` finds the documents of `cat`
  (`QueryEval.NoImplicitAnd`).
- **Results printed in evaluation order.** They come in the order the evaluator returns them,
  which is ascending when the posting lists are (`QueryEval.ExpressionOrdered`).
- **An unreadable corpus file breaks printing.** The file is skipped but its doc id stays used.
  The forward table is then no longer indexed by doc id, and `print_results_cli` indexes it by
  position. A result can be counted and not printed (`Pipeline.SkippedFileHidesResult`). The
  universe of `!` is the size of the forward table, so it shrinks too: `!zz` then finds the
  skipped file's id and misses the last file's id (`Pipeline.SkippedFileShrinksNegation`). When
  every file can be opened, each printed line is the record of the file the id came from
  (`Pipeline.IndexThenSearchOneTermLines`).
- **The stemmer can throw.** `stem_word` throws `std::out_of_range` for any word that reaches
  length 3 in its third block without ending in "ly". This includes "cat" and "cats"
  (`Stemmer.CatAndCatsFail`). The model returns `None` there.
- **The doubled-letter rule never drops a consonant.** When the last two characters are the same
  consonant, the backward scan of `has_vowel_before_last_consonant` meets that consonant first
  (`Stemmer.DoubledConsonantKept`).

## Model

| member | source | states |
|---|---|---|
| Common.ToLower | search.cpp:28-33 | upper-case ASCII letters map to lower case by the fixed offset; every other byte is unchanged; the result is never upper case |
| Common.IsAlnum | tokenizer.cpp:15-19 | a byte is a letter or digit exactly when its lower-case form is a lower-case letter or a digit |
| Common.StrLessIrreflexive | index.cpp:57-59 | no term is below itself under the order `compare_terms` uses |
| Common.StrLessTransitive | index.cpp:57-59 | the order on terms is transitive |
| Common.StrLessTotal | index.cpp:57-59 | of two different terms one is below the other |
| Common.StrLessAsymmetric | index.cpp:57-59 | no two terms are each below the other |
| Records.FirstIndex | search.cpp:69-76 | the index of the first record with the term, or the table's length exactly when no record has it |
| Records.LookupUnique | search.cpp:69-76 | in a table with one record per term, looking up a record's term gives that record's posting list |
| DocTokenizer.RunLength | index.cpp:28-37 | the pending token is the longest prefix of letters and digits |
| DocTokenizer.TokensAreTerms | index.cpp:24-44 | every token has two or more bytes, all lower-case letters or digits |
| DocTokenizer.NoTokensIffNoLongRun | index.cpp:24-44 | text gives no token exactly when no two adjacent bytes are both letters or digits |
| DocTokenizer.SeparatorSplits | index.cpp:31-36 | tokens never span a separator: the tokens of `a + [c] + b` are those of `a` followed by those of `b` |
| DocTokenizer.FlushAtSeparator | index.cpp:31-36 | a separator emits the pending run when it has two or more bytes, then scanning goes on after it |
| DocTokenizer.FlushAtEnd | index.cpp:39-41 | the run pending at the end of the text is emitted when it has two or more bytes |
| DocTokenizer.Tokenize | index.cpp:24-44 | the loop emits exactly the tokens of the text |
| TokenizerCli.Tokenize | tokenizer.cpp:21-41 | the standalone tokenizer emits the same tokens as the indexer's (`DocTokenizer.TokensAreTerms` states what they are) |
| QueryTokenizer.TokenizeQuery | search.cpp:35-67 | the loop emits exactly the query's tokens |
| QueryTokenizer.QueryTokensWellFormed | search.cpp:35-67 | every token is an operator or a non-empty term without spaces; no token is a space |
| QueryTokenizer.SpaceOnlyFlushes | search.cpp:54-58 | a trailing space adds no token |
| QueryTokenizer.AmpersandMerges | search.cpp:48-50 | `&` after a `&` token merges into `&&`; otherwise it is a token of its own |
| QueryTokenizer.BarMerges | search.cpp:45-47 | `\|` after a `\|` token merges into `\|\|`; otherwise it is a token of its own |
| QueryTokenizer.SpacedAmpersands | search.cpp:48-58 | a lone `&` is a token, and `& &` is one `&&` token because a space emits nothing |
| QueryTokenizer.TripleAmpersand | search.cpp:48-53 | `&&&` is `&&` followed by `&` |
| QueryTokenizer.OneTermTokens | search.cpp:59-65 | a query of term characters only is one token |
| QueryTokenizer.ScanOperatorThenTerm | search.cpp:40-60 | an operator other than `\|` and `&` is emitted at once as its own token, and the term characters after it stay pending as one term |
| PostingOps.Intersect | search.cpp:78-93 | the intersection holds only ids of both lists and is no longer than either |
| PostingOps.IntersectSorted | search.cpp:78-93 | on sorted lists `and_op` is sorted and holds exactly the common ids |
| PostingOps.IntersectStrict | search.cpp:78-93 | on strictly ascending lists `and_op` is the sorted set intersection |
| PostingOps.Union | search.cpp:95-120 | the union is no longer than both lists together |
| PostingOps.UnionMembers | search.cpp:95-120 | `or_op` holds exactly the ids of either list |
| PostingOps.UnionSorted | search.cpp:95-120 | on sorted lists `or_op` is sorted |
| PostingOps.UnionStrict | search.cpp:95-120 | on strictly ascending lists `or_op` is the sorted set union |
| PostingOps.ComplementBelow | search.cpp:125-129 | every id kept lies in the range scanned |
| PostingOps.ComplementMembers | search.cpp:125-129 | the ids below `k` kept are exactly those not in the operand, strictly ascending |
| PostingOps.ComplementIsSetDifference | search.cpp:122-131 | `not_op` is strictly ascending and holds exactly the ids of `[0, total_docs)` not in the operand; empty when `total_docs <= 0` |
| PostingOps.AscendingByMembers | search.cpp:78-131 | a strictly ascending result is determined by its members |
| PostingOps.DeMorganAnd | search.cpp:78-131 | the complement of an intersection of sorted lists is the union of the complements |
| PostingOps.DeMorganOr | search.cpp:78-131 | the complement of a union is the intersection of the complements |
| PostingOps.AndOp | search.cpp:78-93 | the two-index loop computes the intersection |
| PostingOps.OrOp | search.cpp:95-120 | the merge loop and its two drain loops compute the union |
| PostingOps.AppendRest | search.cpp:111-118 | a drain loop appends what is left of one list |
| PostingOps.NotOp | search.cpp:122-131 | the loop over `[0, total_docs)` computes the complement |
| QueryEval.Expression | search.cpp:133-141 | the cursor never moves back, and it stops at the end or at a token other than `\|\|` |
| QueryEval.Term | search.cpp:143-151 | the cursor never moves back, and it stops at the end or at a token other than `&&` and space |
| QueryEval.Factor | search.cpp:153-176 | at the end of the tokens the result is empty and the cursor stays; otherwise at least one token is consumed |
| QueryEval.GetDocIds | search.cpp:69-76 | the scan returns the first matching record's list, or the empty list |
| QueryEval.EvaluateExpression | search.cpp:133-141 | the loop computes the expression's ids and cursor |
| QueryEval.EvaluateTerm | search.cpp:143-151 | the loop computes the term's ids and cursor |
| QueryEval.EvaluateFactor | search.cpp:153-176 | computes the factor's ids and cursor |
| QueryEval.ExecuteSearch | search.cpp:237-242 | the query's result, with the size of the forward table as the universe |
| QueryEval.LookupMeaning | search.cpp:69-76 | an unknown term has the empty posting list; a known term gives its first record's list |
| QueryEval.ExpressionOrdered | search.cpp:133-176 | when the posting lists are sorted (or strictly ascending), so is every query result |
| QueryEval.FactorAtTerm | search.cpp:173-175 | a term token in factor position is looked up and consumed |
| QueryEval.OneTermSearch | search.cpp:237-242 | a one-term query finds that term's posting list |
| QueryEval.RestStops | search.cpp:133-151 | the loops stop at a token that does not continue them |
| QueryEval.OrOfAnd | search.cpp:133-151 | `a \|\| b && c` is the union of `a` with the intersection of `b` and `c` |
| QueryEval.OrOfParenthesizedAnd | search.cpp:164-171 | `a \|\| (b && c)` is the same union |
| QueryEval.Precedence | search.cpp:133-151 | AND binds tighter than OR |
| QueryEval.DeMorganQuery | search.cpp:153-162 | `!(a && b)` and `!a \|\| !b` find the same documents |
| QueryEval.DoubleNegation | search.cpp:158-162 | `!!a` finds `a`'s documents when its list is strictly ascending and within the universe |
| QueryEval.Leniency | search.cpp:153-171 | a missing `)` is tolerated, parsing stops at a stray `)`, an operator with nothing after it meets the empty set |
| QueryEval.NoImplicitAnd | search.cpp:143-151 | `cat dog` finds the documents of `cat` only |
| Codec.Wrap32 | index.cpp:153 | `static_cast<int>` gives an int32 congruent to its argument modulo 2^32, the argument itself when it fits |
| Codec.DecodeEncodeInt32 | index.cpp:154 | an int written as four bytes reads back as its int32 value |
| Codec.BytesStrRoundTrip | search.cpp:192-193 | a term's bytes read back as the same term |
| Codec.InvertedRoundTrip | index.cpp:153-166 | the inverted file decodes back to the table written, whatever follows it |
| Codec.ForwardRoundTrip | index.cpp:175-188 | the forward file decodes back to the table written, whatever follows it |
| Codec.TruncatedInvertedFails | search.cpp:186-203 | every proper prefix of an inverted file fails to decode |
| Codec.TruncatedForwardFails | search.cpp:215-233 | every proper prefix of a forward file fails to decode |
| Codec.ReadInts | search.cpp:197-200 | reading `n` ids succeeds exactly when `4n` bytes remain, and consumes them |
| Codec.ReadInt32 | search.cpp:186-187 | reading an int succeeds exactly when four bytes remain, and consumes them |
| IndexLoader.ReadIdsAt | search.cpp:197-200 | the loop reads the ids the decoding gives, stopping where it does |
| IndexLoader.ReadStringAt | search.cpp:190-193 | reads a length-prefixed string as the decoding does |
| IndexLoader.ReadTermAt | search.cpp:190-202 | reads one term record as the decoding does |
| IndexLoader.ReadDocAt | search.cpp:219-232 | reads one document record as the decoding does |
| IndexLoader.ReadTermsAt | search.cpp:189-203 | the record loop reads the records the decoding gives |
| IndexLoader.ReadDocsAt | search.cpp:218-233 | the record loop reads the records the decoding gives |
| IndexLoader.LoadInvertedIndex | search.cpp:178-205 | a file that cannot be opened gives the empty table; otherwise the table is the file's decoding |
| IndexLoader.LoadForwardIndex | search.cpp:207-235 | a file that cannot be opened gives the empty table; otherwise the table is the file's decoding |
| Sorting.SortByPermutes | index.cpp:78 | sorting only reorders |
| Sorting.SortBySorted | index.cpp:78 | the sorted sequence is ascending |
| Sorting.SortByStrict | index.cpp:145 | with distinct keys the result is strictly ascending |
| Sorting.StrictPermutationUnique | index.cpp:145 | two strictly ascending orderings of the same elements are equal, so any correct sort gives the same table |
| IndexBuilder.ListedFilesMeaning | index.cpp:61-80 | the listed files are exactly the directory's `.txt` entries, as often as it holds them, in ascending order |
| IndexBuilder.ListTxtFiles | index.cpp:61-80 | the loop and sort list the files `ListedFiles` gives; none when the directory cannot be opened |
| IndexBuilder.DotIndex | index.cpp:118 | the position of the first '.', or the length when there is none |
| IndexBuilder.TitleMeaning | index.cpp:118-119 | a title is the longest prefix of the name without a '.' |
| IndexBuilder.TitleOfTxtName | index.cpp:118-119 | a name whose only '.' starts ".txt" has the name without ".txt" as title |
| IndexBuilder.LookupAddPosting | index.cpp:124-137 | one occurrence appends the id to its term's list and changes no other term's list |
| IndexBuilder.LookupAddPostings | index.cpp:123-138 | a document adds its id to a term's list once per occurrence of the term |
| IndexBuilder.AddPostingsUnique | index.cpp:123-138 | the table keeps one record per term |
| IndexBuilder.IndexedPostings | index.cpp:99-143 | every term's list holds each opened file's id once per occurrence, in file order, with no deduplication |
| IndexBuilder.IndexedUnique | index.cpp:99-143 | the built table holds one record per term |
| IndexBuilder.OccurrencesOrdered | index.cpp:99-143 | with at most 2^31 files every list is ascending, repeats allowed, and holds ids of listed files |
| IndexBuilder.IndexedForward | index.cpp:99-121 | forward records come in file order with ascending ids, each with its file's position, title and URL, and every file that could be opened has its record |
| IndexBuilder.AllOpenedIdsArePositions | index.cpp:99-121 | when every file opens, a record's doc id is its position in the forward table |
| IndexBuilder.AddFile | index.cpp:109-138 | one file of the loop adds its forward record and one posting per token |
| IndexBuilder.BuildTables | index.cpp:99-143 | the loop builds the tables `Indexed` gives, skipping files that cannot be opened |
| IndexBuilder.SortedTableMeaning | index.cpp:145 | sorting the term table keeps its records, makes terms strictly ascending and changes no posting list |
| IndexBuilder.WriteIds | index.cpp:163-165 | the inner loop writes each id as an int32 |
| IndexBuilder.WriteTerm | index.cpp:157-165 | one pass of the record loop appends that record's encoding |
| IndexBuilder.WriteInverted | index.cpp:153-166 | the writer emits the inverted file's encoding |
| IndexBuilder.WriteDoc | index.cpp:179-187 | one pass of the record loop appends that record's encoding |
| IndexBuilder.WriteForward | index.cpp:175-188 | the writer emits the forward file's encoding |
| IndexBuilder.RunIndexer | index.cpp:82-196 | `main` lists, builds, sorts and writes, with the outcome `Indexer` gives |
| IndexBuilder.IndexerExitCode | index.cpp:91-173 | exit 0 exactly when a file is listed and both outputs can be created; the inverted file is written exactly when a file is listed and it can be created |
| IndexBuilder.NoFilesFails | index.cpp:61-94 | no `.txt` entry, or a directory that cannot be opened, gives exit 1 and no file |
| SearchCli.PrintedMeaning | search.cpp:244-251 | lines are the forward records at the result ids that pass the bounds check; never more lines than results |
| SearchCli.PrintedInRange | search.cpp:244-251 | when every id is in range, the lines are the records at those positions, one per result |
| SearchCli.PrintResults | search.cpp:244-251 | the loop prints the lines `Printed` gives |
| SearchCli.RunSearch | search.cpp:253-279 | `main` has the outcome `SearchRun` gives |
| SearchCli.SearchExitCode | search.cpp:253-267 | exit 0 exactly when there is one argument and both files decode to non-empty tables; otherwise exit 1 with no result |
| Pipeline.SortedTableValid | index.cpp:145 | sorting keeps a table within the int32 fields |
| Pipeline.IndexFilesDecode | index.cpp:145-189 | a successful indexer run writes files that decode back to its sorted term table and its forward table |
| Pipeline.SortedTableOfCorpus | index.cpp:99-145 | the written term table is strictly ascending by term, and each term's list is its occurrences |
| Pipeline.SearchOnIndexFiles | search.cpp:253-279 | the search over the indexer's files searches its sorted term table and forward table |
| Pipeline.IndexThenSearchOneTerm | search.cpp:261-275 | over the indexer's files a one-term search succeeds when both tables are non-empty, and counts the term's occurrences |
| Pipeline.IndexThenSearchOneTermLines | search.cpp:244-251 | when every file opens, each printed line is the record of the file its id came from |
| Pipeline.SkippedFileHidesResult | search.cpp:244-251 | with an unreadable first file, a search counts one result and prints no line |
| Pipeline.SkippedFileShrinksNegation | search.cpp:236-240 | with an unreadable first file, `!zz` finds only the unreadable file's id, because the universe of `!` is the forward table's size |
| Stemmer.LetterClasses | stemmer.cpp:13-20 | an ASCII letter is a vowel or a consonant and not both; nothing else is either; case does not matter |
| Stemmer.RemoveSuffix | stemmer.cpp:22-28 | when the word ends with the suffix, the result followed by the suffix is the word; otherwise the word is unchanged |
| Stemmer.RemoveSuffixRoundTrip | stemmer.cpp:22-28 | removing a suffix that was appended gives back the stem |
| Stemmer.HasVowelBeforeLastConsonant | stemmer.cpp:30-37 | the backward loop returns true exactly when the first letter met from the last-but-one character back is a vowel |
| Stemmer.RoundShortens | stemmer.cpp:44-98 | a round leaves a prefix of the word, strictly shorter exactly when it reports a change |
| Stemmer.StemLoopResult | stemmer.cpp:44-98 | the loop ends on a prefix of its word on which another round changes nothing |
| Stemmer.StemIdempotent | stemmer.cpp:39-101 | a stem is a prefix of its word and stemming it again gives it back; only words of three or more characters fail |
| Stemmer.ThreeCharacterWords | stemmer.cpp:79-90 | a three-character word not ending in 's' fails exactly when it does not end in "ly" |
| Stemmer.CatAndCatsFail | stemmer.cpp:83 | "cat" and "cats" throw |
| Stemmer.HappinessExample | stemmer.cpp:83-85 | "happiness" stems to "happi" |
| Stemmer.DoubleSKept | stemmer.cpp:46-57 | no plural ending is stripped from a word ending in "ss" |
| Stemmer.DoubledConsonantKept | stemmer.cpp:62-66 | the doubled-letter rule never drops a doubled consonant |
| Stemmer.PluralBlock | stemmer.cpp:46-57 | computes the plural rewrite |
| Stemmer.VerbalBlock | stemmer.cpp:59-77 | computes the "ing"/"ed" rewrite |
| Stemmer.AdverbialBlock | stemmer.cpp:79-90 | computes the "ly"/"ness"/"ful" rewrite, or the failure |
| Stemmer.FinalEBlock | stemmer.cpp:92-97 | computes the final-'e' rewrite |
| Stemmer.OneRound | stemmer.cpp:45-97 | one pass of the loop body applies the four rule blocks in order, or fails where the source throws |
| Stemmer.StemWord | stemmer.cpp:39-101 | the `while (changed)` loop returns the stem `Stem` gives, or fails where the source throws |

## Left out

- `main` and `read_file` of tokenizer.cpp and `main` of stemmer.cpp: argument checks and printing
  around the modelled functions.
- The timing line of the search tool, the indexer's progress messages, and all error and usage
  messages. The printed result lines are modelled by the records they show, not by their text.
- Native byte order. Both files are modelled as little-endian int32 fields.
- IndexBuilder.WriteTerm: writes every byte of the term. The source writes `static_cast<int>(length)`
  bytes, which is fewer, or a negative count, for a term of 2^31 bytes or more.
- IndexBuilder.WriteInverted: the same, for every term of the table.
- IndexBuilder.WriteDoc: writes every byte of the title and the URL. The source writes
  `static_cast<int>(length)` bytes of each, which differs for strings of 2^31 bytes or more.
- IndexBuilder.WriteForward: the same, for every record of the table.
- IndexBuilder.RunIndexer: the same, for both files it writes.
- IndexLoader.LoadInvertedIndex: the source never checks its reads. On a truncated file it goes
  on with whatever the failed reads left, and on a negative length it throws. The model fails
  (`None`) in both cases, and the search tool then exits with code 1.
- IndexLoader.LoadForwardIndex: as for the inverted index.
- QueryEval.ExecuteSearch: `total_docs` is the size of the forward table without the
  `static_cast<int>` wrap-around, which matters only beyond 2^31 documents.
- Pipeline.IndexFilesDecode: assumes the built tables fit the files' int32 fields (`FitsInt32`):
  fewer than 2^31 files, terms and postings per term, and strings shorter than 2^31 bytes. The
  source writes wrapped counts beyond that.
- Pipeline.SearchOnIndexFiles: the same `FitsInt32` assumption.
- Pipeline.IndexThenSearchOneTerm: the same `FitsInt32` assumption.
- Pipeline.IndexThenSearchOneTermLines: the same `FitsInt32` assumption.
- `std::sort` is modelled by its result, computed by an insertion sort. Both sorted sequences
  have distinct keys (file names of one directory, terms of a table with one record per term),
  so the ascending permutation is unique (`Sorting.StrictPermutationUnique`).
- Stemmer.HasVowelBeforeLastConsonant: the conversion of `length() - 2` to `int` is not
  modelled. It matters only for words of 2^31 bytes or more.
- The Python crawler, downloader, database and web server are not part of this model.
