# Search-index builder and query ranker, modelled in Dafny

The repository is a small search tool for a stemmed Indonesian news dataset.
The project models three parts of its core:

- `safe_parse_tokens` turns a stored token-list cell into a list of strings and never fails.
- `create_search_index` checks the dataset folder and handles rebuild confirmation.
  It creates a fresh index, loads the dataset and checks its columns.
  It then turns each row into a document and writes the documents through an
  index writer. It commits after each added row `i` with `(i + 1) % 1000 == 0`,
  and once more at the end.
- `search_query` checks the query and the index folder, then collects the
  retrieved hits. It pairs each hit with its cosine score and sorts the pairs
  stably by descending score. It returns the first `top_k`, or the first `top_k`
  unranked hits when the vectoriser raises.

Modules:

- `Wrappers`: `Option`.
- `Text`: Python's whitespace set, `strip()`, `split()`, `" ".join` and `str(n)`,
  with their round-trip lemmas.
- `TokenParser`: `safe_parse_tokens`.
- `Indexer`:
  - one row as a function (`MakeDocument`);
  - the row loop specified by functions over the sequence of row outcomes
    (`Docs`, `ErrorCount`, `CommitRows`, `Snapshots`);
  - the index and its writer as classes with fields the methods update;
  - the loop itself as a method with invariants (`IndexRows`);
  - the whole build (`CreateSearchIndex`).
- `Searcher`:
  - the two collection loops, as methods;
  - the stable descending sort, as the function `SortDesc`, and as an in-place
    insertion sort on an array proved equal to it (`SortByScore`);
  - the whole query (`SearchQuery`).

What the foreign libraries do becomes an input:

- The outcome of `pd.isna` and `ast.literal_eval` on a cell is a `TokenCell`.
- Whether the dataset folder exists (`os.path.exists`) is the `folderExists` parameter.
- Whether an index already exists (`exists_in`) is the index's `present` field.
- Whether `create_in` raises is the `createFails` parameter.
- Whether the dataset file exists, and what `pd.read_csv` yields, is a `Dataset`.
- The operator's answer to the rebuild prompt is a parameter.
- The set of rows whose `add_document` raises is a parameter.
- The documents the full-text search returns are a `Retrieval`.
- The cosine scores, or the vectoriser's failure, are a `Scoring`.

The code runs `create_in` (which replaces the index with an empty one) *before* it looks for
the dataset file and checks its columns. So a missing file, an unreadable file or
a missing column leaves a fresh, empty index behind, not the old one. The model
follows the code: see the fourth ensures of `Indexer.CreateSearchIndex`.

## Model

| member | source | states |
|---|---|---|
| TokenParser.SafeParseTokens | modules/indexer.py:164-191 | Missing value, non-list literal and unexpected error give `[]`. A parsed list gives, at position k, `str()` of its k-th truthy item. On `ValueError`/`SyntaxError` it gives whitespace-free non-empty pieces that glued together are exactly the non-whitespace characters of `str(cell)`, and `str(cell)` is those pieces separated by the whitespace runs `Gaps` returns |
| TokenParser.Truthy | modules/indexer.py:182 | Python truthiness of a literal: the empty string, 0, False and None are falsy (the `if t` filter) |
| TokenParser.Str | modules/indexer.py:182 | Python `str(t)` of a literal: strings as they are, integers in decimal, `True`/`False`, `None` |
| Text.IntToString | modules/indexer.py:182 | `str(n)` of a literal integer: a minus sign before the digits of `-n` when `n` is negative |
| TokenParser.KeptTokens | modules/indexer.py:182 | `[str(t) for t in parsed if t]`; its meaning is stated by `KeptTokensSpec` |
| TokenParser.FallbackTokensUnique | modules/indexer.py:185-188 | Any reading of `str(cell)` as whitespace-free words separated by whitespace runs is the fallback's result, so `"a\tb"` gives `["a", "b"]` |
| TokenParser.KeptTokensSpec | modules/indexer.py:181-182 | The comprehension keeps exactly the truthy items, in increasing position order, each stringified |
| TokenParser.ParsedStringsKept | modules/indexer.py:179-182 | A literal list of non-empty strings comes back unchanged |
| TokenParser.FalsyItemsDropped | modules/indexer.py:182 | A list of only falsy items (empty string, 0, False, None) parses to `[]` |
| TokenParser.FallbackTokensRoundTrip | modules/indexer.py:185-188 | On the fallback path, joining the tokens with spaces and splitting again gives them back |
| Text.Strip | modules/indexer.py:112 | Python `s.strip()`; its meaning is stated by `StripIsTrim` |
| Text.IsSpace | modules/indexer.py:188 | The whitespace set of Python's `str.isspace`, which `split()` here and `strip()` at line 112 cut at |
| Text.StripIsTrim | modules/indexer.py:112 | `strip()` is a slice of its input. Everything cut off is whitespace, and the result neither starts nor ends with whitespace |
| Text.StripEmptyIff | modules/indexer.py:112-115 | `s.strip()` is empty iff `s` is all whitespace |
| Text.Split | modules/indexer.py:188 | Python `s.split()` with no argument; its meaning is stated by `Gaps` and `SplitUnique` |
| Text.Gaps | modules/indexer.py:188 | `s` is the pieces of `s.split()` with whitespace runs around and between them, the inner runs non-empty |
| Text.SplitUnique | modules/indexer.py:188 | Any way of writing `s` as non-empty whitespace-free words separated by non-empty whitespace runs (the outer runs possibly empty) is `s.split()`: split cuts at every whitespace run and nowhere else |
| Text.SplitKeepsNonSpace | modules/indexer.py:188 | `split()` loses only whitespace: its pieces concatenated are the non-whitespace characters in order |
| Text.SplitTokensAreWords | modules/indexer.py:188 | Every piece of `split()` is non-empty and whitespace-free |
| Text.Join | modules/indexer.py:110-111 | Python `" ".join(ts)`; `JoinInterleaves` states its meaning for any tokens, `JoinGaps` for non-empty, whitespace-free ones |
| Text.JoinInterleaves | modules/indexer.py:110-111 | For any tokens, including ones with spaces inside such as `"new york"`, `" ".join(ts)` is the tokens with one space between neighbours and nothing at either end |
| Text.JoinGaps | modules/indexer.py:110-111 | `" ".join(ts)` of non-empty, whitespace-free tokens is the tokens with one space between neighbours and nothing at either end |
| Text.SplitJoin | modules/indexer.py:110-111 | `split(" ".join(ts)) == ts` for non-empty, whitespace-free tokens |
| Text.JoinEnds | modules/indexer.py:110-112 | Joining such tokens gives a non-empty string with non-whitespace first and last characters |
| Text.JoinSplitIsNormalised | modules/indexer.py:110-111 | Splitting a string and re-joining the pieces collapses every whitespace run between them to one space and drops the outer runs; splitting again gives the same pieces |
| Text.NatToString | modules/indexer.py:122 | Python `str(n)` for the row number: at least one character, all decimal digits, and no leading zero: the first digit is `0` iff `n == 0`, and then it is the only digit |
| Text.DecimalValueOfNatToString | modules/indexer.py:122 | `str(n)` read back as decimal is `n` |
| Text.NatToStringInjective | modules/indexer.py:122 | Distinct row numbers print differently |
| Indexer.MakeDocument | modules/indexer.py:106-128 | A row is skipped iff both joined token strings are all whitespace. An added document has id `doc_<i>` and non-empty content |
| Indexer.DocumentFields | modules/indexer.py:110-128 | The fields of an added document: stripped `title + " " + body` content, with non-whitespace ends; the title falls back to `(Tanpa Judul)`; the source is the row's; the raw title is the joined title; the raw content is the first `min(len, 500)` characters of the joined body |
| Indexer.EmptyRowSkipped | modules/indexer.py:110-118 | A row whose two cells both parse to nothing is skipped |
| Indexer.TokenRowDocument | modules/indexer.py:106-128 | When both cells parse to non-empty lists of whitespace-free tokens, the document is exactly `doc_<i>`, the joined title, the source, `title + " " + body`, the joined title and the body preview |
| Indexer.Preview | modules/indexer.py:127 | `konten[:500]` is a prefix of length `min(len, 500)` |
| Indexer.JoinedTokens | modules/indexer.py:110-111 | `" ".join(tokens) if tokens else ""` of a parsed cell |
| Indexer.RowContent | modules/indexer.py:112 | `f"{judul} {konten}".strip()` |
| Indexer.DocId | modules/indexer.py:122 | `f"doc_{i}"`; distinct rows get distinct ids by `DocIdInjective` |
| Indexer.OutcomeOf | modules/indexer.py:104-141 | A row is skipped iff it has no document. It is added iff it has one and its add does not raise, and then with that document |
| Indexer.IsCommitRow | modules/indexer.py:130-133 | An intermediate commit follows row `i` when the row was added and `(i + 1) % 1000 == 0` |
| Indexer.Docs | modules/indexer.py:99-141 | The documents the loop has passed to the writer after `n` rows: a list no longer than `n` |
| Indexer.ErrorCount | modules/indexer.py:100-141 | `error_count` after `n` rows: skipped rows and rows whose add raised |
| Indexer.DescribesExactly | modules/indexer.py:103 | A sequence describes the rows' outcomes iff it is `Outcomes(rows, failing)` |
| Indexer.CountsAddUp | modules/indexer.py:115-141 | Every row counts once: successes plus errors equal the row count |
| Indexer.DocsPrefix | modules/indexer.py:103-141 | The documents of fewer rows are a prefix of those of more rows |
| Indexer.DocsFromAddedRows | modules/indexer.py:103-141 | The k-th indexed document is the one for the k-th added row. Added rows increase, and a row is among them iff it was added |
| Indexer.AddedDocId | modules/indexer.py:122 | The document added for row `j` has id `doc_<j>` |
| Indexer.DocIdInjective | modules/indexer.py:122 | Distinct rows get distinct `doc_<i>` ids |
| Indexer.AddedIff | modules/indexer.py:115-141 | Row `j` is added iff its content is non-empty and its add does not raise |
| Indexer.DocIdsUniqueInRowOrder | modules/indexer.py:122 | Indexed ids are `doc_<row>` for strictly increasing rows, so they are pairwise distinct, as the unique `doc_id` field of the schema (modules/indexer.py line 54) requires |
| Indexer.IndexedIff | modules/indexer.py:103-141 | `doc_<i>` is in the index iff row `i` has non-empty content and its add did not raise |
| Indexer.CommitRowsIff | modules/indexer.py:133-136 | An intermediate commit follows row `c` iff row `c` was added and `(c + 1) % 1000 == 0`. The commits come in row order |
| Indexer.AllAddedCounts | modules/indexer.py:130-136 | With every row added, n rows give `n / 1000` intermediate commits, n successes and no errors |
| Indexer.TwoThousandRows | modules/indexer.py:133-144 | 2000 added rows give two intermediate commits and 2000 documents |
| Indexer.SnapshotsAtCommitRows | modules/indexer.py:133-135 | The k-th intermediate commit leaves the index with exactly the documents of the rows up to the k-th commit row |
| Indexer.RowStep | modules/indexer.py:103-141 | One pass of the loop keeps committed + pending documents and commit history in step with the first `i + 1` rows |
| Indexer.IndexStore.Create | modules/indexer.py:64 | `create_in` leaves a present, empty index |
| Indexer.Writer.constructor | modules/indexer.py:98 | `ix.writer()` opens a writer on the index with nothing pending (also used at line 135) |
| Indexer.Writer.AddDocument | modules/indexer.py:121-128 | A document that does not raise joins the pending list. One that raises leaves it unchanged |
| Indexer.Writer.Commit | modules/indexer.py:134-144 | Pending documents are appended to the index and recorded as a commit. The writer closes |
| Indexer.IndexRow | modules/indexer.py:104-141 | Row `i` is added iff its outcome is `Added`. The index and pending list change as a commit after row i requires. A fresh writer follows a commit |
| Indexer.AdvanceRow | modules/indexer.py:103-141 | `IndexRow` takes the loop invariant for `i` rows to `i + 1` rows |
| Indexer.IndexRows | modules/indexer.py:98-144 | The index ends holding its old documents plus the added documents in row order. Every intermediate commit and the final one are recorded. The success and error counts are those `Docs` and `ErrorCount` give and add up to the row count |
| Indexer.MissingColumns | modules/indexer.py:88-89 | A column is reported missing iff it is required and absent |
| Indexer.Reuses | modules/indexer.py:39-43 | The guard that keeps the existing index: it exists, no rebuild is forced, and the operator declines |
| Indexer.IndexDataset | modules/indexer.py:71-156 | A missing or unreadable file or a missing column returns false and changes nothing more. Otherwise it returns true with the counts and the indexed documents |
| Indexer.CreateSearchIndex | modules/indexer.py:17-161 | Each guard's return value and effect on the index: a missing folder, a declined rebuild, a failing `create_in`, a failing load or a column check on a fresh index, a full build |
| Searcher.MessageText | modules/searcher.py:12-59 | The status strings the query returns; their marks are stated by `MessageMarks` |
| Searcher.CauseText | modules/searcher.py:58-59 | The `str(e)` part of the `Error:` status: the raised text, or a fixed message for a score index out of range |
| Searcher.MessageMarks | modules/searcher.py:12-59 | The message starts with the cross mark iff it is an error status. The unranked and ranked completions start with the warning and check marks |
| Searcher.Take | modules/searcher.py:48-56 | `s[:k]` is a prefix of length `min(k, len)` |
| Searcher.CollectHits | modules/searcher.py:27-32 | Hit j is the stored title, source and content of document j |
| Searcher.Hits | modules/searcher.py:28-32 | The `(title, source, content)` tuple of each retrieved document, one per document |
| Searcher.PairScores | modules/searcher.py:50-52 | Pair j is hit j with score j |
| Searcher.Pairs | modules/searcher.py:50-52 | `(doc, cosine_scores[i])` for each hit, one pair per hit |
| Searcher.SortDesc | modules/searcher.py:54 | `ranked_docs.sort(key=score, reverse=True)` as a stable insertion sort: as many entries as its input; sorted, permutation, stable and unique by the lemmas below |
| Searcher.Insert | modules/searcher.py:54 | One step of the stable sort: the new entry goes after every entry with a score at least its own; one entry longer, and `InsertSorted`, `InsertPermutation` and `InsertKeepsScoreOrder` give its meaning |
| Searcher.InsertPermutation | modules/searcher.py:54 | Insertion adds exactly one entry |
| Searcher.InsertSorted | modules/searcher.py:54 | Insertion keeps a list sorted by descending score |
| Searcher.InsertKeepsScoreOrder | modules/searcher.py:54 | Insertion appends the new entry to its score group |
| Searcher.SortDescSorted | modules/searcher.py:54 | The sort's result is in non-increasing score order |
| Searcher.SortDescPermutation | modules/searcher.py:54 | The sort's result is a permutation of its input |
| Searcher.SortDescStable | modules/searcher.py:54 | For every score, the entries with that score keep their input order |
| Searcher.SortDescUnique | modules/searcher.py:54 | Any sorted permutation that keeps every score group's order is the sort's result |
| Searcher.SortByScore | modules/searcher.py:54 | The in-place array sort leaves `SortDesc` of the old contents |
| Searcher.InsertLast | modules/searcher.py:54 | One pass of the in-place sort inserts `a[i]` into the sorted prefix and keeps the rest |
| Searcher.TakeOfSorted | modules/searcher.py:56 | A prefix of a sorted list is sorted, part of it, and keeps a prefix of every score group |
| Searcher.Rank | modules/searcher.py:50-56 | The ranked result: score-sorted with `min(N, top_k)` entries, each some hit with its own score, a sub-multiset of the pairs, and for each score the first entries of that score in retrieval order |
| Searcher.SearchQuery | modules/searcher.py:9-59 | Each guard's result and status, the unranked top-k hits when vectorising fails, an error when there are fewer scores than hits, and otherwise the top-k of the stable descending sort; every error status comes with an empty list |

## Left out

- The full-text engine is not modelled: tokenising and stemming in its schema
  analyser, index files, query parsing and relevance ranking. What retrieval returns is an input.
- The vectoriser and the cosine similarity are not computed. The scores, or the
  vectoriser's failure, are an input. Scores are exact reals, so floating-point
  rounding and NaN (for which Python's sort is not a total order) are not covered.
- `pd.isna` and `ast.literal_eval` are foreign calls. Their outcome on a cell is
  given as a `TokenCell`, with each literal's truthiness and `str()` text
  given for values other than strings, integers, booleans and None.
- TokenParser.SafeParseTokens: a `ParsedList` is taken to print every truthy item.
  `str()` of an integer longer than the interpreter's digit limit (4300 by default
  since Python 3.11) raises `ValueError`, and a hex literal can produce one. Line 185
  then catches it and line 188 splits the raw text instead. The model gives such a
  cell as a `SyntaxOrValueError`; it does not derive that outcome from the list.
- The CSV file and `pd.read_csv` are not modelled: the dataset is an input.
  The row number is the row's position, as with the default index `read_csv` produces.
  `str(row['source'])` is taken to be the stored source text.
- A commit that raises is not modelled: commits always succeed in the model.
  In the code the final `writer.commit()` (modules/indexer.py:144) would reach the
  fatal-error handler (lines 158-161) and return false. The intermediate
  `writer.commit()` and `ix.writer()` (lines 134-135) sit inside the per-row `try`,
  so a raise there reaches the per-row handler (lines 138-141). That handler adds
  one to the error count after the success count was already raised at line 130,
  so the row would count as both a success and an error.
- `os.makedirs` (line 49) and the first `ix.writer()` (line 98) sit outside any
  `try`. If they raise, the exception escapes `create_search_index` instead of the
  function returning a boolean. The model takes both to succeed.
- `backup_index` copies files with a timestamped name. It is left out as file-system
  I/O and a clock. `get_index_stats` and `print_index_info` are reporting helpers
  outside the core and are left out.
- Console output, log lines, the progress bar and the `input()` prompt are not
  modelled. The prompt's answer is the `confirmRebuild` parameter.
- `Searcher.CauseText`: the text of the index error when there are fewer scores
  than hits is a fixed schematic message, not Python's exact exception text.
- `Searcher.SearchQuery`: a negative `top_k` is excluded by the `nat` type. Python's
  `s[:k]` for negative `k` would drop entries from the end.
- The `main.py` menu is not part of this model.
