/**
 The pure parts of the doc2archive harvester: cutting the numbers read off
 a report page into table rows, joining the pages of a report, parsing one
 line of the copied document list, and the loop that adds new
 tax-adjustment reports to the document database.

 Reading text out of a PDF page, the token regex, driving the archive
 application's window and the clipboard are outside the model: a page
 arrives as its list of tokens, and saving the document at a given list
 position arrives as a parameter that yields that document's pages or
 fails.
 */
module Doc2Archive {
  import opened Results
  import Text
  import ReportStore

  /** One entry of the archive's document list. */
  datatype DocumentMetaData = DocumentMetaData(reportType: string, reportDate: string, taxYear: string)

  datatype HarvestError =
    | ColumnCountMismatch       // the `len(v) % 7 == 0` assertion on a page
    | MissingColumn             // indexing past the pieces of a list line
    | SaveFailed                // the document could not be opened and saved
    | Store(error: ReportStore.StoreError)

  /** Every report table has seven columns. */
  const Columns: nat := 7

  /** The report type of a tax adjustment. */
  const TaxAdjustment: string := "EAENDR"

  /** The rows of a table, laid end to end. */
  function Flatten(rows: seq<seq<string>>): seq<string>
  {
    if rows == [] then [] else rows[0] + Flatten(rows[1..])
  }

  lemma {:induction false} FlattenAppend(a: seq<seq<string>>, b: seq<seq<string>>)
    ensures Flatten(a + b) == Flatten(a) + Flatten(b)
    decreases |a|
  {
    if a == [] {
      assert a + b == b;
    } else {
      assert (a + b)[1..] == a[1..] + b;
      FlattenAppend(a[1..], b);
    }
  }

  /** Cuts a token list whose length is a multiple of seven into rows of seven,
      in order: the loop of `extract_page_values`. */
  function Chunk(v: seq<string>): (rows: seq<seq<string>>)
    requires |v| % Columns == 0
    ensures |rows| == |v| / Columns
    ensures forall i :: 0 <= i < |rows| ==> |rows[i]| == Columns
    ensures Flatten(rows) == v
    decreases |v|
  {
    if v == [] then [] else [v[..Columns]] + Chunk(v[Columns..])
  }

  /** Cutting the rows of a seven-column table back out of their
      concatenation gives the rows again. */
  lemma {:induction false} ChunkFlatten(rows: seq<seq<string>>)
    requires forall i :: 0 <= i < |rows| ==> |rows[i]| == Columns
    ensures |Flatten(rows)| == Columns * |rows|
    ensures Chunk(Flatten(rows)) == rows
    decreases |rows|
  {
    if rows != [] {
      ChunkFlatten(rows[1..]);
      var f := Flatten(rows);
      assert f == rows[0] + Flatten(rows[1..]);
      assert f[..Columns] == rows[0];
      assert f[Columns..] == Flatten(rows[1..]);
      assert [rows[0]] + rows[1..] == rows;
    }
  }

  /** `extract_page_values` from the page's tokens on: fails unless the token
      count is a multiple of seven, and otherwise yields the seven-column rows. */
  function ExtractPageValues(tokens: seq<string>): (r: Result<seq<seq<string>>, HarvestError>)
    ensures r.Err? <==> |tokens| % Columns != 0
    ensures r.Err? ==> r.error == ColumnCountMismatch
    ensures r.Ok? ==> Flatten(r.value) == tokens && |r.value| == |tokens| / Columns
    ensures r.Ok? ==> forall i :: 0 <= i < |r.value| ==> |r.value[i]| == Columns
  {
    if |tokens| % Columns != 0 then Err(ColumnCountMismatch) else Ok(Chunk(tokens))
  }

  /** `extract_pdf_values`: the rows of every page, page after page; the first
      page that fails the column check fails the whole document. */
  function ExtractPdfValues(pages: seq<seq<string>>): (r: Result<seq<seq<string>>, HarvestError>)
    ensures r.Err? <==> exists p :: 0 <= p < |pages| && |pages[p]| % Columns != 0
    ensures r.Ok? ==> Flatten(r.value) == Flatten(pages)
    ensures r.Ok? ==> forall i :: 0 <= i < |r.value| ==> |r.value[i]| == Columns
    decreases |pages|
  {
    if pages == [] then Ok([])
    else
      match ExtractPageValues(pages[0])
      case Err(e) => Err(e)
      case Ok(first) =>
        match ExtractPdfValues(pages[1..])
        case Err(e) =>
          assert exists p :: 0 <= p < |pages| && |pages[p]| % Columns != 0 by {
            var p :| 0 <= p < |pages[1..]| && |pages[1..][p]| % Columns != 0;
            assert pages[p + 1] == pages[1..][p];
          }
          Err(e)
        case Ok(rest) =>
          FlattenAppend(first, rest);
          assert forall p :: 1 <= p < |pages| ==> pages[p] == pages[1..][p - 1];
          Ok(first + rest)
  }

  /** The rows of a report are determined by its tokens alone: they are the
      seven-token rows of all pages' tokens laid end to end, so no row spans
      two pages and none is lost or reordered. */
  lemma ExtractPdfValuesIsChunkOfAllTokens(pages: seq<seq<string>>)
    requires ExtractPdfValues(pages).Ok?
    ensures |Flatten(pages)| % Columns == 0
    ensures ExtractPdfValues(pages).value == Chunk(Flatten(pages))
  {
    ChunkFlatten(ExtractPdfValues(pages).value);
  }

  /** `[row[0] for row in table_data]`. */
  function FirstColumn(table: seq<seq<string>>): (props: seq<string>)
    requires forall i :: 0 <= i < |table| ==> |table[i]| > 0
    ensures |props| == |table|
  {
    seq(|table|, i requires 0 <= i < |table| => table[i][0])
  }

  /** The property list of a report is every seventh token of its pages,
      starting with the first: the first column of the rows. */
  lemma {:induction false} FirstColumnOfChunks(v: seq<string>)
    requires |v| % Columns == 0
    ensures forall i :: 0 <= i < |v| / Columns ==> FirstColumn(Chunk(v))[i] == v[Columns * i]
    decreases |v|
  {
    if v != [] {
      var rest := v[Columns..];
      FirstColumnOfChunks(rest);
      forall i | 0 <= i < |v| / Columns
        ensures FirstColumn(Chunk(v))[i] == v[Columns * i]
      {
        FirstColumnCons(v, i);
      }
    }
  }

  /** One step of `FirstColumnOfChunks`: row `i` of `v` is row `i - 1` of
      the tokens after the first row. */
  lemma FirstColumnCons(v: seq<string>, i: int)
    requires |v| % Columns == 0 && 0 <= i < |v| / Columns
    requires forall j :: 0 <= j < |v[Columns..]| / Columns ==>
               FirstColumn(Chunk(v[Columns..]))[j] == v[Columns..][Columns * j]
    ensures FirstColumn(Chunk(v))[i] == v[Columns * i]
  {
    var rest := v[Columns..];
    var rows := Chunk(v);
    assert rows == [v[..Columns]] + Chunk(rest);
    if i > 0 {
      assert rows[i] == Chunk(rest)[i - 1];
      assert FirstColumn(Chunk(rest))[i - 1] == rest[Columns * (i - 1)];
      NextRowStart(v, i);
    }
  }

  lemma NextRowStart(v: seq<string>, i: int)
    requires 0 < i && Columns * i < |v|
    ensures v[Columns..][Columns * (i - 1)] == v[Columns * i]
  {
    assert Columns * i == Columns * (i - 1) + Columns;
  }

  /** `parse_document_data`: the tab-separated pieces of the line without the
      last one; fields 1, 2 and 6 are report type, date and tax year. Fewer
      than seven such pieces is an index error. */
  function ParseDocumentData(line: string): (r: Result<DocumentMetaData, HarvestError>)
    ensures r.Ok? <==> Text.Count(line, '\t') >= 7
    ensures r.Ok? ==> var f := Text.Split(line, '\t');
      |f| >= 8 && r.value == DocumentMetaData(f[1], f[2], f[6])
    ensures r.Err? ==> r.error == MissingColumn
  {
    Text.SplitLength(line, '\t');
    var pieces := Text.Split(line, '\t');
    var data := pieces[..|pieces| - 1];
    if |data| < 7 then Err(MissingColumn)
    else Ok(DocumentMetaData(data[1], data[2], data[6]))
  }

  /** A list line is the row's cells, each followed by a tab: parsing it gives
      back the cells in positions 1, 2 and 6. */
  lemma ParseRenderedLine(cells: seq<string>)
    requires |cells| >= 7
    requires forall i :: 0 <= i < |cells| ==> '\t' !in cells[i]
    ensures ParseDocumentData(Text.Join(cells + [""], '\t')) == Ok(DocumentMetaData(cells[1], cells[2], cells[6]))
  {
    var line := Text.Join(cells + [""], '\t');
    Text.SplitJoin(cells + [""], '\t');
    Text.SplitLength(line, '\t');
  }

  // ---------------------------------------------------------------------
  // the ingest loop of `update_doc_database`

  /** One pass of the loop body for document `doc`, given what saving and
      reading that document yields. A document is skipped unless it is a tax
      adjustment whose key is not stored yet; otherwise its pages are cut into
      rows and the first column becomes the property list of a new report. */
  function Ingest(db: ReportStore.Db, doc: DocumentMetaData,
                  fetched: Result<seq<seq<string>>, HarvestError>): (r: Result<ReportStore.Db, HarvestError>)
    ensures r.Ok? ==> ReportStore.Extends(db, r.value)
    ensures r.Ok? ==> var key := ReportStore.Report(doc.reportDate, doc.taxYear);
      || r.value == db
      || (&& doc.reportType == TaxAdjustment
          && key !in db.reports
          && r.value.reports == db.reports + [key])
    ensures r.Ok? && doc.reportType == TaxAdjustment ==>
      ReportStore.Report(doc.reportDate, doc.taxYear) in r.value.reports
    ensures doc.reportType != TaxAdjustment ==> r == Ok(db)
    ensures (doc.reportType == TaxAdjustment && db.schema
             && ReportStore.Report(doc.reportDate, doc.taxYear) in db.reports) ==> r == Ok(db)
    ensures r.Err? <==>
      && doc.reportType == TaxAdjustment
      && (|| !db.schema
          || (&& ReportStore.Report(doc.reportDate, doc.taxYear) !in db.reports
              && (fetched.Err? || ExtractPdfValues(fetched.value).Err?)))
    ensures (doc.reportType == TaxAdjustment && !db.schema) ==> r == Err(Store(ReportStore.NoSuchTable("reports")))
    ensures (doc.reportType == TaxAdjustment && db.schema
             && ReportStore.Report(doc.reportDate, doc.taxYear) !in db.reports
             && fetched.Ok? && ExtractPdfValues(fetched.value).Ok?) ==>
      r == Ok(ReportStore.AddReportData(db, doc.reportDate, doc.taxYear, FirstColumn(ExtractPdfValues(fetched.value).value)).value)
  {
    if doc.reportType != TaxAdjustment then Ok(db)
    else
      match ReportStore.IsReportInDatabase(db, doc.reportDate, doc.taxYear)
      case Err(e) => Err(Store(e))
      case Ok(true) => Ok(db)
      case Ok(false) =>
        match fetched
        case Err(e) => Err(e)
        case Ok(pages) =>
          match ExtractPdfValues(pages)
          case Err(e) => Err(e)
          case Ok(table) =>
            match ReportStore.AddReportData(db, doc.reportDate, doc.taxYear, FirstColumn(table))
            case Err(e) => Err(Store(e))
            case Ok(db') => Ok(db')
  }

  /** How a harvest ended: the database as left behind (each added report was
      committed on its own, so reports added before a failure stay) and the
      failure, if any. */
  datatype Harvest = Harvest(db: ReportStore.Db, failure: Option<HarvestError>)

  /** The loop of `update_doc_database` from list position `i` on; `pagesOf(i)`
      is what saving and reading the document at position `i` yields. */
  function HarvestFrom(db: ReportStore.Db, docs: seq<DocumentMetaData>,
                       pagesOf: nat -> Result<seq<seq<string>>, HarvestError>, i: nat): (h: Harvest)
    requires i <= |docs|
    ensures ReportStore.Extends(db, h.db)
    decreases |docs| - i
  {
    if i == |docs| then Harvest(db, None)
    else
      match Ingest(db, docs[i], pagesOf(i))
      case Err(e) => Harvest(db, Some(e))
      case Ok(db') => HarvestFrom(db', docs, pagesOf, i + 1)
  }

  /** `update_doc_database` over the document list found by the search. */
  function UpdateDocDatabase(db: ReportStore.Db, docs: seq<DocumentMetaData>,
                             pagesOf: nat -> Result<seq<seq<string>>, HarvestError>): Harvest
  {
    HarvestFrom(db, docs, pagesOf, 0)
  }

  /** Some tax-adjustment document of the list carries this key. */
  predicate ListedAdjustment(docs: seq<DocumentMetaData>, r: ReportStore.Report)
  {
    exists j :: 0 <= j < |docs| && docs[j].reportType == TaxAdjustment
      && r == ReportStore.Report(docs[j].reportDate, docs[j].taxYear)
  }

  /** Each report from position `n` on differs from every report before it. */
  predicate FreshFrom(reports: seq<ReportStore.Report>, n: nat)
  {
    forall k, m :: n <= k < |reports| && 0 <= m < k ==> reports[m] != reports[k]
  }

  /** Each report from position `n` on carries the key of a listed
      tax-adjustment document. */
  predicate ListedFrom(docs: seq<DocumentMetaData>, reports: seq<ReportStore.Report>, n: nat)
  {
    forall k :: n <= k < |reports| ==> ListedAdjustment(docs, reports[k])
  }

  /** Only tax-adjustment documents of the list are added, each under a key
      that was absent when it was checked: every report a harvest appends
      carries the key of such a document and differs from every report stored
      before it. */
  lemma {:induction false} HarvestAddsOnlyNewAdjustments(db: ReportStore.Db, docs: seq<DocumentMetaData>,
                                                        pagesOf: nat -> Result<seq<seq<string>>, HarvestError>, i: nat)
    requires i <= |docs|
    ensures var h := HarvestFrom(db, docs, pagesOf, i);
      ListedFrom(docs, h.db.reports, |db.reports|) && FreshFrom(h.db.reports, |db.reports|)
    decreases |docs| - i
  {
    if i < |docs| {
      match Ingest(db, docs[i], pagesOf(i))
      case Err(_) =>
      case Ok(db') =>
        HarvestAddsOnlyNewAdjustments(db', docs, pagesOf, i + 1);
        var h := HarvestFrom(db', docs, pagesOf, i + 1);
        if db'.reports != db.reports {
          var n := |db.reports|;
          var key := ReportStore.Report(docs[i].reportDate, docs[i].taxYear);
          assert h.db.reports[..n + 1] == db'.reports;
          assert h.db.reports[n] == key;
          assert forall m :: 0 <= m < n ==> h.db.reports[m] == db.reports[m];
          assert ListedAdjustment(docs, key) by {
            assert docs[i].reportType == TaxAdjustment;
          }
        }
    }
  }

  /** A harvest keeps report keys unique: if no two stored reports share a
      date and tax year before, none do after, even when the document list
      names the same report twice. */
  lemma HarvestPreservesUniqueKeys(db: ReportStore.Db, docs: seq<DocumentMetaData>,
                                   pagesOf: nat -> Result<seq<seq<string>>, HarvestError>)
    requires ReportStore.UniqueKeys(db)
    ensures ReportStore.UniqueKeys(UpdateDocDatabase(db, docs, pagesOf).db)
  {
    var h := HarvestFrom(db, docs, pagesOf, 0);
    HarvestAddsOnlyNewAdjustments(db, docs, pagesOf, 0);
    assert forall m :: 0 <= m < |db.reports| ==> h.db.reports[m] == db.reports[m];
  }

  /** One pass of the loop keeps every mention pointing at an existing report. */
  lemma IngestPreservesIntegrity(db: ReportStore.Db, doc: DocumentMetaData,
                                 fetched: Result<seq<seq<string>>, HarvestError>)
    requires ReportStore.Integrity(db)
    ensures var r := Ingest(db, doc, fetched); r.Ok? ==> ReportStore.Integrity(r.value)
  {
    if doc.reportType == TaxAdjustment && ReportStore.IsReportInDatabase(db, doc.reportDate, doc.taxYear) == Ok(false)
       && fetched.Ok? && ExtractPdfValues(fetched.value).Ok? {
      var table := ExtractPdfValues(fetched.value).value;
      ReportStore.AddReportPreservesIntegrity(db, doc.reportDate, doc.taxYear, FirstColumn(table));
    }
  }

  /** A harvest keeps every mention pointing at an existing report. */
  lemma {:induction false} HarvestPreservesIntegrity(db: ReportStore.Db, docs: seq<DocumentMetaData>,
                                                    pagesOf: nat -> Result<seq<seq<string>>, HarvestError>, i: nat)
    requires i <= |docs|
    requires ReportStore.Integrity(db)
    ensures ReportStore.Integrity(HarvestFrom(db, docs, pagesOf, i).db)
    decreases |docs| - i
  {
    if i < |docs| {
      IngestPreservesIntegrity(db, docs[i], pagesOf(i));
      match Ingest(db, docs[i], pagesOf(i))
      case Err(_) =>
      case Ok(db') =>
        HarvestPreservesIntegrity(db', docs, pagesOf, i + 1);
    }
  }

  /** A harvest that runs to the end leaves every tax-adjustment document of
      the list stored. */
  lemma {:induction false} HarvestStoresEveryAdjustment(db: ReportStore.Db, docs: seq<DocumentMetaData>,
                                                       pagesOf: nat -> Result<seq<seq<string>>, HarvestError>, i: nat)
    requires i <= |docs|
    ensures var h := HarvestFrom(db, docs, pagesOf, i);
      h.failure.None? ==>
        forall j :: i <= j < |docs| && docs[j].reportType == TaxAdjustment ==>
          ReportStore.Report(docs[j].reportDate, docs[j].taxYear) in h.db.reports
    decreases |docs| - i
  {
    if i < |docs| {
      match Ingest(db, docs[i], pagesOf(i))
      case Err(_) =>
      case Ok(db') =>
        HarvestStoresEveryAdjustment(db', docs, pagesOf, i + 1);
        var h := HarvestFrom(db', docs, pagesOf, i + 1);
        if docs[i].reportType == TaxAdjustment {
          var key := ReportStore.Report(docs[i].reportDate, docs[i].taxYear);
          var k :| 0 <= k < |db'.reports| && db'.reports[k] == key;
          assert h.db.reports[k] == key;
        }
    }
  }

  /** Whether the document at position `j` can be brought in: saving it
      and cutting its pages into rows both succeed. */
  predicate Readable(pagesOf: nat -> Result<seq<seq<string>>, HarvestError>, j: nat)
  {
    pagesOf(j).Ok? && ExtractPdfValues(pagesOf(j).value).Ok?
  }

  /** When the harvest finishes: a harvest on a database with its tables
      runs to the end whenever every tax-adjustment document of the list can
      be brought in, and a harvest that stops early stopped at a tax
      adjustment that could not be, or for want of the tables. Other
      documents never stop it. */
  lemma {:induction false} HarvestCompletes(db: ReportStore.Db, docs: seq<DocumentMetaData>,
                                           pagesOf: nat -> Result<seq<seq<string>>, HarvestError>, i: nat)
    requires i <= |docs|
    ensures db.schema && (forall j :: i <= j < |docs| && docs[j].reportType == TaxAdjustment ==> Readable(pagesOf, j))
            ==> HarvestFrom(db, docs, pagesOf, i).failure.None?
    ensures HarvestFrom(db, docs, pagesOf, i).failure.Some? ==>
      exists j :: i <= j < |docs| && docs[j].reportType == TaxAdjustment && (!db.schema || !Readable(pagesOf, j))
    decreases |docs| - i
  {
    if i < |docs| {
      match Ingest(db, docs[i], pagesOf(i))
      case Err(_) =>
      case Ok(db') =>
        HarvestCompletes(db', docs, pagesOf, i + 1);
    }
  }

  /** The property list stored for a newly found report is the first column of
      its table, in row order: a lookup of any property number `p` then adds
      one hit per row whose first cell is `p`, all naming the new report. */
  lemma IngestStoresFirstColumn(db: ReportStore.Db, doc: DocumentMetaData, pages: seq<seq<string>>, p: string)
    requires db.schema && ReportStore.Integrity(db)
    requires doc.reportType == TaxAdjustment
    requires ReportStore.Report(doc.reportDate, doc.taxYear) !in db.reports
    requires ExtractPdfValues(pages).Ok?
    ensures var r := Ingest(db, doc, Ok(pages));
      var table := ExtractPdfValues(pages).value;
      && r.Ok?
      && r.value.reports == db.reports + [ReportStore.Report(doc.reportDate, doc.taxYear)]
      && ReportStore.SearchProperty(r.value, p) == Ok(ReportStore.SearchProperty(db, p).value
           + seq(ReportStore.Occurrences(FirstColumn(table), p),
                 _ => ReportStore.Hit(p, ReportStore.RowId(|db.reports|), doc.reportDate, doc.taxYear)))
  {
    var table := ExtractPdfValues(pages).value;
    ReportStore.SearchAfterAdd(db, doc.reportDate, doc.taxYear, FirstColumn(table), p);
  }
}
