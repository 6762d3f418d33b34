/** `create_search_index` of modules/indexer.py: the validation guards, the
    per-row loop that turns dataset rows into index documents, and the batch
    commits of the index writer. The full-text library's schema, analysers and
    postings are not modelled; the index is the sequence of documents it has
    committed. */
module Indexer {
  import opened Wrappers
  import opened Text
  import opened TokenParser

  /** A commit follows every row whose position plus one is a multiple of this. */
  const BatchSize: nat := 1000
  /** Length of the stored body preview. */
  const PreviewLength: nat := 500
  /** Title stored for a document whose joined title is empty. */
  const UntitledPlaceholder: string := "(Tanpa Judul)"
  /** Name of the dataset file inside the dataset folder. */
  const DatasetFile: string := "combined_stemmed_dataset.csv"
  const RequiredColumns: seq<string> := ["judul_tokens", "konten_tokens", "source"]

  /** One dataset row: the two token cells and the source label (already `str()`-ed). */
  datatype Row = Row(judulTokens: TokenCell, kontenTokens: TokenCell, source: string)

  /** The stored fields of one index document. */
  datatype Document = Document(
    docId: string,
    title: string,
    source: string,
    content: string,
    rawTitle: string,
    rawContent: string)

  // ------------------------------------------------------------ one row

  /** `" ".join(tokens) if tokens else ""` for a parsed cell. */
  function JoinedTokens(cell: TokenCell): string {
    var tokens := SafeParseTokens(cell);
    if tokens != [] then Join(tokens) else ""
  }

  function JoinedTitle(row: Row): string { JoinedTokens(row.judulTokens) }
  function JoinedBody(row: Row): string { JoinedTokens(row.kontenTokens) }

  /** `f"{judul} {konten}".strip()`. */
  function RowContent(row: Row): string {
    Strip(JoinedTitle(row) + " " + JoinedBody(row))
  }

  /** `f"doc_{i}"`. */
  function DocId(i: nat): string {
    "doc_" + NatToString(i)
  }

  /** `konten[:500]`: the first 500 characters, or all of them if fewer. */
  function Preview(s: string): (r: string)
    ensures r <= s
    ensures |r| == if |s| < PreviewLength then |s| else PreviewLength
  {
    if |s| <= PreviewLength then s else s[..PreviewLength]
  }

  /** The document the loop adds for row `i`, or `None` when the row is skipped
      because its content is empty. */
  function MakeDocument(i: nat, row: Row): (r: Option<Document>)
    ensures r.None? <==> AllSpace(JoinedTitle(row)) && AllSpace(JoinedBody(row))
    ensures r.Some? ==> r.value.docId == DocId(i) && r.value.content != []
  {
    var judul := JoinedTitle(row);
    var konten := JoinedBody(row);
    var content := RowContent(row);
    StripEmptyIff(judul + " " + konten);
    AllSpaceSplits(judul, konten);
    if content == [] then None
    else Some(Document(
      docId := DocId(i),
      title := if judul != [] then judul else UntitledPlaceholder,
      source := row.source,
      content := content,
      rawTitle := judul,
      rawContent := Preview(konten)))
  }

  lemma AllSpaceSplits(a: string, b: string)
    ensures AllSpace(a + " " + b) <==> AllSpace(a) && AllSpace(b)
  {
    var s := a + " " + b;
    if AllSpace(s) {
      forall k | 0 <= k < |a| ensures IsSpace(a[k]) { assert s[k] == a[k]; }
      forall k | 0 <= k < |b| ensures IsSpace(b[k]) { assert s[|a| + 1 + k] == b[k]; }
    }
  }

  /** The stored fields of an added document:
      `content` is the joined title and body without surrounding whitespace,
      `title` falls back to the placeholder, `raw_title` is the joined title,
      and `raw_content` is the first `min(len, 500)` characters of the joined body. */
  lemma DocumentFields(i: nat, row: Row)
    requires MakeDocument(i, row).Some?
    ensures var d := MakeDocument(i, row).value;
            && d.docId == DocId(i)
            && d.source == row.source
            && d.content == RowContent(row)
            && d.content != [] && !IsSpace(d.content[0]) && !IsSpace(d.content[|d.content| - 1])
            && d.title == (if JoinedTitle(row) == [] then UntitledPlaceholder else JoinedTitle(row))
            && d.rawTitle == JoinedTitle(row)
            && d.rawContent <= JoinedBody(row)
            && |d.rawContent| == (if |JoinedBody(row)| < PreviewLength then |JoinedBody(row)| else PreviewLength)
  {
    var t, b := JoinedTitle(row), JoinedBody(row);
    var c := Strip(t + " " + b);
    var _, _ := StripIsTrim(t + " " + b);
    assert MakeDocument(i, row).value
        == Document(DocId(i), if t != [] then t else UntitledPlaceholder, row.source, c, t, Preview(b));
  }

  /** A row whose two token cells both parse to nothing is skipped. */
  lemma EmptyRowSkipped(i: nat, row: Row)
    requires SafeParseTokens(row.judulTokens) == [] && SafeParseTokens(row.kontenTokens) == []
    ensures MakeDocument(i, row).None?
  {
  }

  // ------------------------------------------------------------ the row loop, as functions

  /** What the loop does with one row: skip it (empty content), try to add it and
      see the writer raise, or add its document. */
  datatype RowOutcome = Skipped | AddFailed | Added(doc: Document)

  function OutcomeOf(i: nat, row: Row, failing: set<nat>): (o: RowOutcome)
    ensures o.Skipped? <==> MakeDocument(i, row).None?
    ensures o.Added? <==> MakeDocument(i, row).Some? && i !in failing
    ensures o.Added? ==> o == Added(MakeDocument(i, row).value)
  {
    match MakeDocument(i, row)
    case None => Skipped
    case Some(d) => if i in failing then AddFailed else Added(d)
  }

  /** The outcome of every row; `failing` holds the rows whose `add_document` raises. */
  function Outcomes(rows: seq<Row>, failing: set<nat>): (os: seq<RowOutcome>)
    ensures |os| == |rows|
    ensures forall j :: 0 <= j < |rows| ==> os[j] == OutcomeOf(j, rows[j], failing)
  {
    seq(|rows|, i requires 0 <= i < |rows| => OutcomeOf(i, rows[i], failing))
  }

  /** `os` holds the outcome of every row. */
  predicate Describes(rows: seq<Row>, failing: set<nat>, os: seq<RowOutcome>) {
    && |os| == |rows|
    && forall j {:trigger OutcomeOf(j, rows[j], failing)} :: 0 <= j < |rows| ==> os[j] == OutcomeOf(j, rows[j], failing)
  }

  /** The rows and the failing set determine the outcomes: `Outcomes` is the only
      sequence that describes them. */
  lemma DescribesExactly(rows: seq<Row>, failing: set<nat>, os: seq<RowOutcome>)
    ensures Describes(rows, failing, os) <==> os == Outcomes(rows, failing)
  {
    var expected := Outcomes(rows, failing);
    if Describes(rows, failing, os) {
      forall j | 0 <= j < |rows| ensures os[j] == expected[j] {
        assert os[j] == OutcomeOf(j, rows[j], failing);
      }
    }
  }

  /** Row `i` is followed by an intermediate commit. */
  predicate IsCommitRow(os: seq<RowOutcome>, i: nat)
    requires i < |os|
  {
    os[i].Added? && (i + 1) % BatchSize == 0
  }

  /** The documents added for the first `n` rows, in row order. */
  function Docs(os: seq<RowOutcome>, n: nat): (ds: seq<Document>)
    requires n <= |os|
    ensures |ds| <= n
  {
    if n == 0 then []
    else Docs(os, n - 1) + (if os[n - 1].Added? then [os[n - 1].doc] else [])
  }

  /** The positions of the added rows among the first `n`, in order. */
  function AddedRows(os: seq<RowOutcome>, n: nat): seq<nat>
    requires n <= |os|
  {
    if n == 0 then []
    else AddedRows(os, n - 1) + (if os[n - 1].Added? then [n - 1] else [])
  }

  /** How many of the first `n` rows count as errors. */
  function ErrorCount(os: seq<RowOutcome>, n: nat): nat
    requires n <= |os|
  {
    if n == 0 then 0
    else ErrorCount(os, n - 1) + (if os[n - 1].Added? then 0 else 1)
  }

  /** The rows among the first `n` after which an intermediate commit happens, in order. */
  function CommitRows(os: seq<RowOutcome>, n: nat): seq<nat>
    requires n <= |os|
  {
    if n == 0 then []
    else CommitRows(os, n - 1) + (if IsCommitRow(os, n - 1) then [n - 1] else [])
  }

  /** Every row is counted once: success and error counts add up to the row count. */
  lemma {:induction false} CountsAddUp(os: seq<RowOutcome>, n: nat)
    requires n <= |os|
    ensures |Docs(os, n)| + ErrorCount(os, n) == n
  {
    if n > 0 { CountsAddUp(os, n - 1); }
  }

  lemma {:induction false} DocsPrefix(os: seq<RowOutcome>, m: nat, n: nat)
    requires m <= n <= |os|
    ensures Docs(os, m) <= Docs(os, n)
    decreases n - m
  {
    if m < n { DocsPrefix(os, m, n - 1); }
  }

  /** The k-th document is the one added for the k-th added row; added rows
      strictly increase, and a row is among them exactly when it was added. */
  lemma {:induction false} DocsFromAddedRows(os: seq<RowOutcome>, n: nat)
    requires n <= |os|
    ensures var ps := AddedRows(os, n);
            && |ps| == |Docs(os, n)|
            && (forall k :: 0 <= k < |ps| ==> ps[k] < n && os[ps[k]] == Added(Docs(os, n)[k]))
            && (forall k, l :: 0 <= k < l < |ps| ==> ps[k] < ps[l])
            && (forall i :: 0 <= i < n ==> (i in ps <==> os[i].Added?))
  {
    if n > 0 { DocsFromAddedRows(os, n - 1); }
  }

  lemma DocIdInjective(i: nat, j: nat)
    requires DocId(i) == DocId(j)
    ensures i == j
  {
    assert NatToString(i) == DocId(i)[4..];
    assert NatToString(j) == DocId(j)[4..];
    NatToStringInjective(i, j);
  }

  /** The document added for row `j` has id `doc_<j>`. */
  lemma AddedDocId(rows: seq<Row>, failing: set<nat>, os: seq<RowOutcome>, j: nat)
    requires Describes(rows, failing, os) && j < |os| && os[j].Added?
    ensures os[j].doc.docId == DocId(j)
  {
    assert os[j] == OutcomeOf(j, rows[j], failing);
  }

  /** Row `j` is added exactly when its content is non-empty and its add does not raise. */
  lemma AddedIff(rows: seq<Row>, failing: set<nat>, os: seq<RowOutcome>, j: nat)
    requires Describes(rows, failing, os) && j < |os|
    ensures os[j].Added? <==> MakeDocument(j, rows[j]).Some? && j !in failing
  {
    assert os[j] == OutcomeOf(j, rows[j], failing);
  }

  /** Document ids are `doc_<row>` for strictly increasing rows, so no two agree. */
  lemma DocIdsUniqueInRowOrder(rows: seq<Row>, failing: set<nat>, os: seq<RowOutcome>)
    requires Describes(rows, failing, os)
    ensures var ds := Docs(os, |os|);
            var ps := AddedRows(os, |os|);
            && |ps| == |ds|
            && (forall k :: 0 <= k < |ds| ==> ds[k].docId == DocId(ps[k]))
            && (forall k, l :: 0 <= k < l < |ds| ==> ps[k] < ps[l] && ds[k].docId != ds[l].docId)
  {
    DocsFromAddedRows(os, |os|);
    var ds := Docs(os, |os|);
    var ps := AddedRows(os, |os|);
    forall k | 0 <= k < |ds| ensures ds[k].docId == DocId(ps[k]) {
      AddedDocId(rows, failing, os, ps[k]);
    }
    forall k, l | 0 <= k < l < |ds| ensures ds[k].docId != ds[l].docId {
      if ds[k].docId == ds[l].docId { DocIdInjective(ps[k], ps[l]); }
    }
  }

  /** `doc_<i>` is in the index exactly when row `i` has non-empty content and its
      add did not raise: a skipped or failed row leaves no document behind. */
  lemma IndexedIff(rows: seq<Row>, failing: set<nat>, os: seq<RowOutcome>, i: nat)
    requires Describes(rows, failing, os) && i < |rows|
    ensures var ds := Docs(os, |os|);
            (exists k :: 0 <= k < |ds| && ds[k].docId == DocId(i))
            <==> MakeDocument(i, rows[i]).Some? && i !in failing
  {
    DocIdsUniqueInRowOrder(rows, failing, os);
    DocsFromAddedRows(os, |os|);
    AddedIff(rows, failing, os, i);
    var ds := Docs(os, |os|);
    var ps := AddedRows(os, |os|);
    if os[i].Added? {
      var k :| 0 <= k < |ps| && ps[k] == i;
      assert ds[k].docId == DocId(i);
    } else {
      forall k | 0 <= k < |ds| ensures ds[k].docId != DocId(i) {
        if ds[k].docId == DocId(i) { DocIdInjective(ps[k], i); }
      }
    }
  }

  /** An intermediate commit follows row `c` exactly when row `c` was added and
      `c + 1` is a multiple of the batch size; the commits come in row order. */
  lemma {:induction false} CommitRowsIff(os: seq<RowOutcome>, n: nat)
    requires n <= |os|
    ensures var cs := CommitRows(os, n);
            && (forall k :: 0 <= k < |cs| ==> cs[k] < n && IsCommitRow(os, cs[k]))
            && (forall k, l :: 0 <= k < l < |cs| ==> cs[k] < cs[l])
            && (forall c :: 0 <= c < n ==> (c in cs <==> os[c].Added? && (c + 1) % BatchSize == 0))
  {
    if n > 0 { CommitRowsIff(os, n - 1); }
  }

  /** When every row is added, the first `n` rows trigger `n / 1000` intermediate
      commits and no errors. */
  lemma {:induction false} AllAddedCounts(os: seq<RowOutcome>, n: nat)
    requires n <= |os|
    requires forall i :: 0 <= i < |os| ==> os[i].Added?
    ensures |CommitRows(os, n)| == n / BatchSize
    ensures ErrorCount(os, n) == 0 && |Docs(os, n)| == n
  {
    if n > 0 {
      AllAddedCounts(os, n - 1);
      assert (n - 1) / BatchSize + (if n % BatchSize == 0 then 1 else 0) == n / BatchSize;
    }
  }

  /** 2000 rows, all added: two intermediate commits (the final one comes on top)
      and 2000 documents. */
  lemma TwoThousandRows(os: seq<RowOutcome>)
    requires |os| == 2000
    requires forall i :: 0 <= i < |os| ==> os[i].Added?
    ensures |CommitRows(os, 2000)| == 2
    ensures |Docs(os, 2000)| == 2000
  {
    AllAddedCounts(os, 2000);
  }

  /** What the index holds right after each intermediate commit among the first
      `n` rows, starting from `base`. */
  function Snapshots(os: seq<RowOutcome>, base: seq<Document>, n: nat): seq<seq<Document>>
    requires n <= |os|
  {
    if n == 0 then []
    else Snapshots(os, base, n - 1) + (if IsCommitRow(os, n - 1) then [base + Docs(os, n)] else [])
  }

  /** The k-th intermediate commit leaves the index holding `base` followed by the
      documents of every row up to and including the k-th commit row. */
  lemma {:induction false} SnapshotsAtCommitRows(os: seq<RowOutcome>, base: seq<Document>, n: nat)
    requires n <= |os|
    ensures |Snapshots(os, base, n)| == |CommitRows(os, n)|
    ensures forall k :: 0 <= k < |CommitRows(os, n)| ==>
              CommitRows(os, n)[k] < n && Snapshots(os, base, n)[k] == base + Docs(os, CommitRows(os, n)[k] + 1)
  {
    if n > 0 { SnapshotsAtCommitRows(os, base, n - 1); }
  }

  lemma AppendAssoc<T>(a: seq<T>, b: seq<T>, c: seq<T>)
    ensures a + (b + c) == (a + b) + c
  {
  }

  /** One pass of the row loop keeps the loop's invariant: if the committed and
      pending documents and the commit history match the first `i` rows before
      row `i` is handled as `IndexRow` handles it, they match the first `i + 1`
      rows afterwards. */
  lemma RowStep(os: seq<RowOutcome>, c0: seq<Document>, h0: seq<seq<Document>>, i: nat,
                committed: seq<Document>, pending: seq<Document>, history: seq<seq<Document>>,
                committed': seq<Document>, pending': seq<Document>, history': seq<seq<Document>>)
    requires i < |os|
    requires committed + pending == c0 + Docs(os, i)
    requires history == h0 + Snapshots(os, c0, i)
    requires var flush := IsCommitRow(os, i);
             var extra := if os[i].Added? then [os[i].doc] else [];
             && committed' == (if flush then committed + (pending + extra) else committed)
             && pending' == (if flush then [] else pending + extra)
             && history' == (if flush then history + [committed'] else history)
    ensures committed' + pending' == c0 + Docs(os, i + 1)
    ensures history' == h0 + Snapshots(os, c0, i + 1)
    ensures |Docs(os, i + 1)| == |Docs(os, i)| + (if os[i].Added? then 1 else 0)
    ensures ErrorCount(os, i + 1) == ErrorCount(os, i) + (if os[i].Added? then 0 else 1)
  {
    LoopStep(os, c0, i);
    var flush := IsCommitRow(os, i);
    var extra := if os[i].Added? then [os[i].doc] else [];
    CarryOver(committed, pending, extra, flush, c0 + Docs(os, i));
    AppendAssoc(c0, Docs(os, i), extra);
    var snap := if flush then [c0 + Docs(os, i + 1)] else [];
    assert history' == history + snap;
    AppendAssoc(h0, Snapshots(os, c0, i), snap);
  }

  /** Whether or not a row's document is flushed by a commit, the committed and
      the pending documents together grow by that document. */
  lemma CarryOver(committed: seq<Document>, pending: seq<Document>, extra: seq<Document>, flush: bool,
                  done: seq<Document>)
    requires committed + pending == done
    ensures (if flush then committed + (pending + extra) else committed)
            + (if flush then [] else pending + extra) == done + extra
    ensures flush ==> committed + (pending + extra) == done + extra
  {
    AppendAssoc(committed, pending, extra);
    if flush {
      assert committed + (pending + extra) + [] == committed + (pending + extra);
    }
  }

  /** How each loop-spec function grows by one row. */
  lemma LoopStep(os: seq<RowOutcome>, base: seq<Document>, i: nat)
    requires i < |os|
    ensures var extra := if os[i].Added? then [os[i].doc] else [];
            && Docs(os, i + 1) == Docs(os, i) + extra
            && ErrorCount(os, i + 1) == ErrorCount(os, i) + (if os[i].Added? then 0 else 1)
            && Snapshots(os, base, i + 1)
               == Snapshots(os, base, i) + (if IsCommitRow(os, i) then [base + Docs(os, i + 1)] else [])
  {
  }

  // ------------------------------------------------------------ the index and its writer

  /** The on-disk index: whether one exists, the documents committed to it,
      and (for the proofs) its committed contents after each commit. */
  class IndexStore {
    var present: bool
    var committed: seq<Document>
    ghost var history: seq<seq<Document>>

    constructor (present: bool, committed: seq<Document>)
      ensures this.present == present && this.committed == committed && history == []
    {
      this.present := present;
      this.committed := committed;
      history := [];
    }

    /** `create_in`: a fresh, empty index replaces whatever was there. */
    method Create()
      modifies this
      ensures present && committed == [] && history == []
    {
      present := true;
      committed := [];
      history := [];
    }
  }

  /** An index writer: documents added since it was opened wait in `pending`
      until `Commit`, after which the writer is closed. */
  class Writer {
    const store: IndexStore
    var pending: seq<Document>
    var open: bool

    /** `ix.writer()`. */
    constructor (store: IndexStore)
      ensures this.store == store && pending == [] && open
    {
      this.store := store;
      pending := [];
      open := true;
    }

    /** `writer.add_document(...)`; `raises` says whether the library raises for this document. */
    method AddDocument(d: Document, raises: bool) returns (added: bool)
      requires open
      modifies this
      ensures open && added == !raises
      ensures pending == if added then old(pending) + [d] else old(pending)
    {
      added := !raises;
      if added {
        pending := pending + [d];
      }
    }

    /** `writer.commit()`: the pending documents join the index and the writer closes. */
    method Commit()
      requires open
      modifies this, store
      ensures !open && pending == []
      ensures store.committed == old(store.committed) + old(pending)
      ensures store.history == old(store.history) + [store.committed]
      ensures store.present == old(store.present)
    {
      store.committed := store.committed + pending;
      store.history := store.history + [store.committed];
      pending := [];
      open := false;
    }
  }

  /** One pass of the row loop for row `i`: build its document; skip the row if
      the content is empty; otherwise add the document (which raises when `i` is in
      `failing`) and, if it was added and `(i + 1) % 1000 == 0`, commit and open a
      new writer. Returns whether the row was added and the writer to carry on
      with. The ghost `os` names the outcome of every row, so that the effect is
      stated through `os[i]`. */
  method IndexRow(writer: Writer, rows: seq<Row>, i: nat, failing: set<nat>, ghost os: seq<RowOutcome>)
    returns (added: bool, next: Writer)
    requires i < |rows| && Describes(rows, failing, os)
    requires writer.open
    modifies writer, writer.store
    ensures added == os[i].Added?
    ensures next.store == writer.store && next.open && (next == writer || fresh(next))
    ensures writer.store.present == old(writer.store.present)
    ensures var flush := added && (i + 1) % BatchSize == 0;
            var extra := if added then [os[i].doc] else [];
            && writer.store.committed == (if flush then old(writer.store.committed) + (old(writer.pending) + extra)
                                         else old(writer.store.committed))
            && next.pending == (if flush then [] else old(writer.pending) + extra)
            && writer.store.history == (if flush then old(writer.store.history) + [writer.store.committed]
                                       else old(writer.store.history))
  {
    next := writer;
    assert os[i] == OutcomeOf(i, rows[i], failing);
    var doc := MakeDocument(i, rows[i]);
    if doc.None? {
      added := false;
    } else {
      added := writer.AddDocument(doc.value, i in failing);
      if added && (i + 1) % BatchSize == 0 {
        writer.Commit();
        next := new Writer(writer.store);
      }
    }
  }

  /** `IndexRow` for row `i` of a loop that started from `c0` and `h0`: the
      committed and pending documents and the commit history that matched the
      first `i` rows match the first `i + 1` rows afterwards. */
  method AdvanceRow(ix: IndexStore, writer: Writer, rows: seq<Row>, i: nat, failing: set<nat>,
                    ghost os: seq<RowOutcome>, ghost c0: seq<Document>, ghost h0: seq<seq<Document>>)
    returns (added: bool, next: Writer)
    requires i < |rows| && Describes(rows, failing, os)
    requires writer.store == ix && writer.open
    requires ix.committed + writer.pending == c0 + Docs(os, i)
    requires ix.history == h0 + Snapshots(os, c0, i)
    modifies writer, ix
    ensures added == os[i].Added?
    ensures next.store == ix && next.open && (next == writer || fresh(next))
    ensures ix.present == old(ix.present)
    ensures ix.committed + next.pending == c0 + Docs(os, i + 1)
    ensures ix.history == h0 + Snapshots(os, c0, i + 1)
    ensures |Docs(os, i + 1)| == |Docs(os, i)| + (if added then 1 else 0)
    ensures ErrorCount(os, i + 1) == ErrorCount(os, i) + (if added then 0 else 1)
  {
    ghost var committed, pending, history := ix.committed, writer.pending, ix.history;
    added, next := IndexRow(writer, rows, i, failing, os);
    RowStep(os, c0, h0, i, committed, pending, history, ix.committed, next.pending, ix.history);
  }

  /** Index every row in order, committing after each added row `i` with
      `(i + 1) % 1000 == 0` and once more at the end; return the success and
      error counts. Afterwards the index holds the added documents in row order,
      nothing is pending, and each intermediate commit left the index holding
      exactly the documents of the rows up to its own. */
  method IndexRows(ix: IndexStore, rows: seq<Row>, failing: set<nat>, ghost os: seq<RowOutcome>)
    returns (successCount: nat, errorCount: nat)
    requires Describes(rows, failing, os)
    modifies ix
    ensures ix.present == old(ix.present)
    ensures ix.committed == old(ix.committed) + Docs(os, |rows|)
    ensures ix.history == old(ix.history) + Snapshots(os, old(ix.committed), |rows|) + [ix.committed]
    ensures successCount == |Docs(os, |rows|)|
    ensures errorCount == ErrorCount(os, |rows|)
    ensures successCount + errorCount == |rows|
  {
    ghost var c0, h0 := ix.committed, ix.history;
    var writer := new Writer(ix);
    successCount, errorCount := 0, 0;
    var i := 0;
    while i < |rows|
      invariant 0 <= i <= |rows|
      invariant fresh(writer) && writer.store == ix && writer.open
      invariant ix.present == old(ix.present)
      invariant ix.committed + writer.pending == c0 + Docs(os, i)
      invariant ix.history == h0 + Snapshots(os, c0, i)
      invariant successCount == |Docs(os, i)| && errorCount == ErrorCount(os, i)
    {
      var added;
      added, writer := AdvanceRow(ix, writer, rows, i, failing, os, c0, h0);
      successCount := successCount + (if added then 1 else 0);
      errorCount := errorCount + (if added then 0 else 1);
      i := i + 1;
    }
    CountsAddUp(os, |rows|);
    writer.Commit();
  }

  // ------------------------------------------------------------ the whole build

  /** The loaded dataset file, as far as the build looks at it. */
  datatype Dataset =
    | FileMissing                                   // no combined_stemmed_dataset.csv in the folder
    | Unreadable                                    // reading the CSV raises
    | Loaded(columns: seq<string>, rows: seq<Row>)

  /** The counts the build reports when it finishes. */
  datatype BuildReport = BuildReport(successCount: nat, errorCount: nat)

  /** `[col for col in required_columns if col not in df.columns]`. */
  function MissingColumns(columns: seq<string>): (r: seq<string>)
    ensures forall c :: c in r <==> c in RequiredColumns && c !in columns
  {
    Unlisted(RequiredColumns, columns)
  }

  /** The entries of `wanted` that are not in `columns`, in order. */
  function Unlisted(wanted: seq<string>, columns: seq<string>): (r: seq<string>)
    ensures forall c :: c in r <==> c in wanted && c !in columns
  {
    if wanted == [] then []
    else (if wanted[0] in columns then [] else [wanted[0]]) + Unlisted(wanted[1..], columns)
  }

  /** The existing index is kept: it exists, no forced rebuild, and the operator declines. */
  predicate Reuses(ix: IndexStore, forceRebuild: bool, confirmRebuild: bool)
    reads ix
  {
    ix.present && !forceRebuild && !confirmRebuild
  }

  /** `create_search_index(dataset_folder, index_folder, force_rebuild)`.
      `folderExists` is the dataset-folder test; `confirmRebuild` the operator's
      answer to the rebuild prompt; `createFails` whether creating the index
      raises; `failing` the rows whose `add_document` raises. */
  method CreateSearchIndex(ix: IndexStore, folderExists: bool, forceRebuild: bool, confirmRebuild: bool,
                           createFails: bool, dataset: Dataset, failing: set<nat>)
    returns (ok: bool, report: Option<BuildReport>)
    modifies ix
    ensures !folderExists ==> !ok && report.None? && unchanged(ix)
    ensures folderExists && old(Reuses(ix, forceRebuild, confirmRebuild)) ==> ok && report.None? && unchanged(ix)
    ensures folderExists && !old(Reuses(ix, forceRebuild, confirmRebuild)) && createFails ==>
              !ok && report.None? && unchanged(ix)
    ensures folderExists && !old(Reuses(ix, forceRebuild, confirmRebuild)) && !createFails
            && (!dataset.Loaded? || MissingColumns(dataset.columns) != []) ==>
              !ok && report.None? && ix.present && ix.committed == [] && ix.history == []
    ensures folderExists && !old(Reuses(ix, forceRebuild, confirmRebuild)) && !createFails
            && dataset.Loaded? && MissingColumns(dataset.columns) == [] ==>
              var os := Outcomes(dataset.rows, failing);
              && ok && ix.present
              && report == Some(BuildReport(|Docs(os, |os|)|, ErrorCount(os, |os|)))
              && ix.committed == Docs(os, |os|)
              && ix.history == Snapshots(os, [], |os|) + [ix.committed]
  {
    if !folderExists {
      return false, None;
    }
    if ix.present && !forceRebuild {
      if !confirmRebuild {
        return true, None;
      }
      // the old index is backed up here; copying files is not modelled
    }
    if createFails {
      return false, None;
    }
    ix.Create();
    ok, report := IndexDataset(ix, dataset, failing);
  }

  /** The part of the build after the fresh index is created: load the dataset,
      check its columns and index its rows. */
  method IndexDataset(ix: IndexStore, dataset: Dataset, failing: set<nat>)
    returns (ok: bool, report: Option<BuildReport>)
    requires ix.present && ix.committed == [] && ix.history == []
    modifies ix
    ensures !dataset.Loaded? || MissingColumns(dataset.columns) != [] ==>
              !ok && report.None? && unchanged(ix)
    ensures dataset.Loaded? && MissingColumns(dataset.columns) == [] ==>
              var os := Outcomes(dataset.rows, failing);
              && ok && ix.present
              && report == Some(BuildReport(|Docs(os, |os|)|, ErrorCount(os, |os|)))
              && ix.committed == Docs(os, |os|)
              && ix.history == Snapshots(os, [], |os|) + [ix.committed]
  {
    if !dataset.Loaded? {
      return false, None;
    }
    if MissingColumns(dataset.columns) != [] {
      return false, None;
    }
    ghost var os := Outcomes(dataset.rows, failing);
    DescribesExactly(dataset.rows, failing, os);
    var successCount, errorCount := IndexRows(ix, dataset.rows, failing, os);
    return true, Some(BuildReport(successCount, errorCount));
  }

  /** A row whose two cells both parse to non-empty lists of whitespace-free
      tokens is indexed with the tokens joined by single spaces: nothing is
      stripped, the title is the joined title tokens, and the content is the
      joined title, one space and the joined body. */
  lemma TokenRowDocument(i: nat, row: Row)
    requires var ts := SafeParseTokens(row.judulTokens);
             ts != [] && forall k :: 0 <= k < |ts| ==> ts[k] != [] && NoSpace(ts[k])
    requires var bs := SafeParseTokens(row.kontenTokens);
             bs != [] && forall k :: 0 <= k < |bs| ==> bs[k] != [] && NoSpace(bs[k])
    ensures var t, b := Join(SafeParseTokens(row.judulTokens)), Join(SafeParseTokens(row.kontenTokens));
            MakeDocument(i, row) == Some(Document(DocId(i), t, row.source, t + " " + b, t, Preview(b)))
  {
    var t, b := Join(SafeParseTokens(row.judulTokens)), Join(SafeParseTokens(row.kontenTokens));
    JoinEnds(SafeParseTokens(row.judulTokens));
    JoinEnds(SafeParseTokens(row.kontenTokens));
    var s := t + " " + b;
    assert s[0] == t[0] && s[|s| - 1] == b[|b| - 1];
    StripKeepsTrimmed(s);
  }

}
