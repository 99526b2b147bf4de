/**
 The document database (`DocDatabase`): an append-only ledger of
 tax-adjustment reports, each keyed by report date and tax year, with the
 property numbers each report lists.

 The two SQLite tables are modelled as two sequences. A report's row id is
 its position plus one, as SQLite hands out row ids to a table that is
 never deleted from. A mention records a property number and the row id of
 its report. Each operation either commits as a whole or fails before its
 commit, so a failed call leaves the store as it was; the model returns
 `Err` and no new state.
 */
module ReportStore {
  import opened Results

  datatype Report = Report(reportDate: string, taxYear: string)

  datatype Mention = Mention(propertyNumber: string, reportId: int)

  /** One row of `search_property`: a mention joined with its report. */
  datatype Hit = Hit(propertyNumber: string, reportId: int, reportDate: string, taxYear: string)

  /** `schema` is whether `_create_tables` has run on the file: the two
      tables and the index on property numbers are created together. */
  datatype Db = Db(schema: bool, reports: seq<Report>, mentions: seq<Mention>)

  /** SQLite's "no such table" error, raised by every query before the
      schema exists. */
  datatype StoreError =
    | NoSuchTable(table: string)
      /** A write that raised (a locked file, a full disk), by statement
          number within `add_report_data`'s transaction. */
    | WriteFailed(statement: nat)

  /** What a call leaves behind: the committed store and the error it
      raised, if any. */
  datatype Outcome = Outcome(store: Db, error: Option<StoreError>)

  /** A database file nobody has written to yet. */
  const EmptyFile: Db := Db(false, [], [])

  function RowId(i: nat): int
  {
    i + 1
  }

  /** Every mention names a report row that exists. */
  predicate Integrity(db: Db)
  {
    forall i :: 0 <= i < |db.mentions| ==> 1 <= db.mentions[i].reportId <= |db.reports|
  }

  /** No two reports share both their date and their tax year. */
  predicate UniqueKeys(db: Db)
  {
    forall i, j :: 0 <= i < j < |db.reports| ==> db.reports[i] != db.reports[j]
  }

  /** `later` holds every row of `earlier`, unchanged and in place. */
  predicate Extends(earlier: Db, later: Db)
  {
    && earlier.reports <= later.reports
    && earlier.mentions <= later.mentions
  }

  /** `_create_tables`: creates whatever part of the schema is missing and
      leaves every stored row alone. */
  function CreateTables(db: Db): (r: Db)
    ensures r.schema
    ensures r.reports == db.reports && r.mentions == db.mentions
  {
    db.(schema := true)
  }

  /** Creating the tables a second time changes nothing. */
  lemma CreateTablesIdempotent(db: Db)
    ensures CreateTables(CreateTables(db)) == CreateTables(db)
  {
  }

  /** Opening a `DocDatabase` on a file: the constructor creates the tables. */
  function Open(file: Db): (r: Db)
    ensures r.schema && Extends(file, r) && Extends(r, file)
  {
    CreateTables(file)
  }

  /** The mention rows `add_report_data` inserts for one report. */
  function MentionsOf(props: seq<string>, id: int): (r: seq<Mention>)
    ensures |r| == |props|
    ensures forall i :: 0 <= i < |r| ==> r[i].propertyNumber == props[i] && r[i].reportId == id
  {
    seq(|props|, i requires 0 <= i < |props| => Mention(props[i], id))
  }

  lemma MentionsOfStep(props: seq<string>, i: nat, id: int)
    requires i < |props|
    ensures MentionsOf(props[..i + 1], id) == MentionsOf(props[..i], id) + [Mention(props[i], id)]
  {
    assert MentionsOf(props[..i + 1], id)[i] == Mention(props[i], id);
  }

  /** `add_report_data`: inserts one report row and then one mention row per
      entry of `props`, in order and with duplicates kept, all pointing at
      the new report; a single commit at the end. There is no check that the
      key is new. */
  function AddReportData(db: Db, reportDate: string, taxYear: string, props: seq<string>): (r: Result<Db, StoreError>)
    ensures r.Err? <==> !db.schema
    ensures r.Ok? ==>
      && r.value.schema
      && Extends(db, r.value)
      && r.value.reports == db.reports + [Report(reportDate, taxYear)]
      && |r.value.mentions| == |db.mentions| + |props|
      && forall i :: 0 <= i < |props| ==>
           r.value.mentions[|db.mentions| + i] == Mention(props[i], RowId(|db.reports|))
  {
    if !db.schema then Err(NoSuchTable("reports"))
    else
      var id := RowId(|db.reports|);
      Ok(Db(true, db.reports + [Report(reportDate, taxYear)], db.mentions + MentionsOf(props, id)))
  }

  /** `add_report_data` against a file whose writes may raise. Statement 0
      inserts the report row and statement `k > 0` the mention of
      `props[k - 1]`; `fails(k)` says whether statement `k` raises, which the
      environment decides. The inserts go to a pending transaction that only
      the commit after the last one makes part of the store, so a call that
      raises leaves the committed store as it was, and one that does not
      raise commits exactly what `AddReportData` describes. */
  method AddReportTransaction(db: Db, reportDate: string, taxYear: string, props: seq<string>, fails: nat -> bool)
    returns (out: Outcome)
    ensures out.error.None? <==> db.schema && forall k :: 0 <= k <= |props| ==> !fails(k)
    ensures out.error.None? ==> AddReportData(db, reportDate, taxYear, props) == Ok(out.store)
    ensures out.error.Some? ==> out.store == db
    ensures !db.schema ==> out.error == Some(NoSuchTable("reports"))
    ensures db.schema && out.error.Some? ==>
      exists k :: 0 <= k <= |props| && out.error == Some(WriteFailed(k)) && fails(k)
        && forall j :: 0 <= j < k ==> !fails(j)
  {
    if !db.schema {
      return Outcome(db, Some(NoSuchTable("reports")));
    }
    if fails(0) {
      return Outcome(db, Some(WriteFailed(0)));
    }
    var id := RowId(|db.reports|);
    var pending := Db(true, db.reports + [Report(reportDate, taxYear)], db.mentions);
    var i := 0;
    while i < |props|
      invariant 0 <= i <= |props|
      invariant pending == Db(true, db.reports + [Report(reportDate, taxYear)], db.mentions + MentionsOf(props[..i], id))
      invariant forall k :: 0 <= k <= i ==> !fails(k)
    {
      if fails(i + 1) {
        return Outcome(db, Some(WriteFailed(i + 1)));
      }
      MentionsOfStep(props, i, id);
      pending := pending.(mentions := pending.mentions + [Mention(props[i], id)]);
      i := i + 1;
    }
    assert props[..i] == props;
    return Outcome(pending, None);
  }

  /** The report rows the `is_report_in_database` query selects. */
  function MatchingReports(reports: seq<Report>, reportDate: string, taxYear: string): (r: seq<Report>)
    ensures forall i :: 0 <= i < |r| ==> r[i] == Report(reportDate, taxYear)
    ensures |r| > 0 <==> exists i :: 0 <= i < |reports| && reports[i] == Report(reportDate, taxYear)
  {
    if reports == [] then []
    else
      var rest := MatchingReports(reports[1..], reportDate, taxYear);
      assert forall i :: 1 <= i < |reports| ==> reports[i] == reports[1..][i - 1];
      if reports[0] == Report(reportDate, taxYear) then [reports[0]] + rest else rest
  }

  /** `is_report_in_database`: whether the query returns any row, i.e.
      whether some stored report has exactly this date and tax year. */
  function IsReportInDatabase(db: Db, reportDate: string, taxYear: string): (r: Result<bool, StoreError>)
    ensures r.Err? <==> !db.schema
    ensures r.Ok? ==> (r.value <==> exists i :: 0 <= i < |db.reports| && db.reports[i] == Report(reportDate, taxYear))
  {
    if !db.schema then Err(NoSuchTable("reports"))
    else Ok(|MatchingReports(db.reports, reportDate, taxYear)| > 0)
  }

  /** The join of `search_property`, over a run of mention rows: every mention
      with exactly this property number whose report row exists, in the
      order the mentions were inserted. */
  function Search(reports: seq<Report>, mentions: seq<Mention>, propertyNumber: string): (r: seq<Hit>)
    ensures forall k :: 0 <= k < |r| ==>
      && r[k].propertyNumber == propertyNumber
      && 1 <= r[k].reportId <= |reports|
      && reports[r[k].reportId - 1] == Report(r[k].reportDate, r[k].taxYear)
    ensures |r| <= |mentions|
    decreases |mentions|
  {
    if mentions == [] then []
    else
      var m := mentions[|mentions| - 1];
      var front := Search(reports, mentions[..|mentions| - 1], propertyNumber);
      if m.propertyNumber == propertyNumber && 1 <= m.reportId <= |reports| then
        var rep := reports[m.reportId - 1];
        front + [Hit(m.propertyNumber, m.reportId, rep.reportDate, rep.taxYear)]
      else front
  }

  /** `search_property`. */
  function SearchProperty(db: Db, propertyNumber: string): (r: Result<seq<Hit>, StoreError>)
    ensures r.Err? <==> !db.schema
    ensures r.Ok? ==> forall k :: 0 <= k < |r.value| ==>
      && r.value[k].propertyNumber == propertyNumber
      && 1 <= r.value[k].reportId <= |db.reports|
      && db.reports[r.value[k].reportId - 1] == Report(r.value[k].reportDate, r.value[k].taxYear)
  {
    if !db.schema then Err(NoSuchTable("properties")) else Ok(Search(db.reports, db.mentions, propertyNumber))
  }

  /** Number of mentions of `p` among `ms`. */
  function MentionCount(ms: seq<Mention>, p: string): nat
  {
    if ms == [] then 0
    else MentionCount(ms[..|ms| - 1], p) + (if ms[|ms| - 1].propertyNumber == p then 1 else 0)
  }

  /** Number of occurrences of `p` in a property list. */
  function Occurrences(props: seq<string>, p: string): nat
  {
    if props == [] then 0
    else Occurrences(props[..|props| - 1], p) + (if props[|props| - 1] == p then 1 else 0)
  }

  // ---------------------------------------------------------------------
  // properties

  /** `add_report_data` keeps every mention pointing at an existing report. */
  lemma AddReportPreservesIntegrity(db: Db, reportDate: string, taxYear: string, props: seq<string>)
    requires Integrity(db)
    requires AddReportData(db, reportDate, taxYear, props).Ok?
    ensures Integrity(AddReportData(db, reportDate, taxYear, props).value)
  {
    var db' := AddReportData(db, reportDate, taxYear, props).value;
    forall i | 0 <= i < |db'.mentions|
      ensures 1 <= db'.mentions[i].reportId <= |db'.reports|
    {
      if i < |db.mentions| {
        assert db'.mentions[i] == db.mentions[i];
      } else {
        assert db'.mentions[i] == Mention(props[i - |db.mentions|], RowId(|db.reports|));
      }
    }
  }

  /** After `add_report_data(d, y, L)` the report is found, whatever the
      store held before. */
  lemma AddedReportIsFound(db: Db, reportDate: string, taxYear: string, props: seq<string>)
    requires db.schema
    ensures AddReportData(db, reportDate, taxYear, props).Ok?
    ensures IsReportInDatabase(AddReportData(db, reportDate, taxYear, props).value, reportDate, taxYear) == Ok(true)
  {
    var db' := AddReportData(db, reportDate, taxYear, props).value;
    assert db'.reports[|db.reports|] == Report(reportDate, taxYear);
  }

  /** The store does not reject a key it already holds: adding the same
      date and tax year twice leaves two reports with that key. */
  lemma AddReportAllowsDuplicateKeys(db: Db, reportDate: string, taxYear: string, props: seq<string>)
    requires db.schema
    ensures var once := AddReportData(db, reportDate, taxYear, props).value;
            var twice := AddReportData(once, reportDate, taxYear, props).value;
            && |twice.reports| == |db.reports| + 2
            && twice.reports[|db.reports|] == twice.reports[|db.reports| + 1]
            && !UniqueKeys(twice)
  {
    var once := AddReportData(db, reportDate, taxYear, props).value;
    var twice := AddReportData(once, reportDate, taxYear, props).value;
    assert twice.reports[|db.reports|] == Report(reportDate, taxYear);
    assert twice.reports[|db.reports| + 1] == Report(reportDate, taxYear);
  }

  /** The join over a concatenation of mention runs is the concatenation of
      the joins. */
  lemma {:induction false} SearchAppend(reports: seq<Report>, ms: seq<Mention>, more: seq<Mention>, p: string)
    ensures Search(reports, ms + more, p) == Search(reports, ms, p) + Search(reports, more, p)
    decreases |more|
  {
    if more == [] {
      assert ms + more == ms;
    } else {
      var all := ms + more;
      assert all[..|all| - 1] == ms + more[..|more| - 1];
      assert all[|all| - 1] == more[|more| - 1];
      SearchAppend(reports, ms, more[..|more| - 1], p);
    }
  }

  /** Appending a report row does not change how mentions that already name
      an existing report join. */
  lemma {:induction false} SearchExtendedReports(reports: seq<Report>, extra: Report, ms: seq<Mention>, p: string)
    requires forall i :: 0 <= i < |ms| ==> 1 <= ms[i].reportId <= |reports|
    ensures Search(reports + [extra], ms, p) == Search(reports, ms, p)
    decreases |ms|
  {
    if ms != [] {
      SearchExtendedReports(reports, extra, ms[..|ms| - 1], p);
      var m := ms[|ms| - 1];
      assert 1 <= m.reportId <= |reports|;
      assert (reports + [extra])[m.reportId - 1] == reports[m.reportId - 1];
    }
  }

  /** The join of the fresh mentions of one report: one hit per occurrence of
      the property number in the list. */
  lemma {:induction false} SearchFresh(reports: seq<Report>, props: seq<string>, id: int, p: string)
    requires 1 <= id <= |reports|
    ensures Search(reports, MentionsOf(props, id), p)
         == seq(Occurrences(props, p), _ => Hit(p, id, reports[id - 1].reportDate, reports[id - 1].taxYear))
    decreases |props|
  {
    var h := Hit(p, id, reports[id - 1].reportDate, reports[id - 1].taxYear);
    if props != [] {
      var front := props[..|props| - 1];
      var ms := MentionsOf(props, id);
      assert ms[..|ms| - 1] == MentionsOf(front, id);
      SearchFresh(reports, front, id, p);
      var n := Occurrences(front, p);
      if props[|props| - 1] == p {
        assert seq(n, _ => h) + [h] == seq(n + 1, _ => h);
      }
    }
  }

  /** `add_report_data(d, y, L)` adds to `search_property(p)` exactly one hit
      per occurrence of `p` in `L` (duplicates kept), each carrying the new
      report's id, date and tax year, after the hits already there. */
  lemma SearchAfterAdd(db: Db, reportDate: string, taxYear: string, props: seq<string>, p: string)
    requires db.schema && Integrity(db)
    ensures var db' := AddReportData(db, reportDate, taxYear, props).value;
            SearchProperty(db', p) == Ok(SearchProperty(db, p).value
              + seq(Occurrences(props, p), _ => Hit(p, RowId(|db.reports|), reportDate, taxYear)))
  {
    var db' := AddReportData(db, reportDate, taxYear, props).value;
    var id := RowId(|db.reports|);
    SearchAppend(db'.reports, db.mentions, MentionsOf(props, id), p);
    SearchExtendedReports(db.reports, Report(reportDate, taxYear), db.mentions, p);
    SearchFresh(db'.reports, props, id, p);
  }

  /** A property number absent from the new list keeps its lookup result. */
  lemma SearchUnaffected(db: Db, reportDate: string, taxYear: string, props: seq<string>, q: string)
    requires db.schema && Integrity(db)
    requires q !in props
    ensures var db' := AddReportData(db, reportDate, taxYear, props).value;
            SearchProperty(db', q) == SearchProperty(db, q)
  {
    SearchAfterAdd(db, reportDate, taxYear, props, q);
    OccurrencesAbsent(props, q);
    var none: seq<Hit> := seq(0, _ => Hit(q, RowId(|db.reports|), reportDate, taxYear));
    assert none == [];
    assert SearchProperty(db, q).value + none == SearchProperty(db, q).value;
  }

  lemma {:induction false} OccurrencesAbsent(props: seq<string>, q: string)
    requires q !in props
    ensures Occurrences(props, q) == 0
    decreases |props|
  {
    if props != [] {
      assert props[..|props| - 1][0..] == props[..|props| - 1];
      assert q !in props[..|props| - 1];
      OccurrencesAbsent(props[..|props| - 1], q);
    }
  }

  /** With referential integrity, `search_property(p)` returns exactly one
      hit per stored mention of `p`. */
  lemma {:induction false} SearchCountsMentions(reports: seq<Report>, ms: seq<Mention>, p: string)
    requires forall i :: 0 <= i < |ms| ==> 1 <= ms[i].reportId <= |reports|
    ensures |Search(reports, ms, p)| == MentionCount(ms, p)
    decreases |ms|
  {
    if ms != [] {
      SearchCountsMentions(reports, ms[..|ms| - 1], p);
    }
  }

  /** The example of a first ingestion: two property numbers are stored, one
      is then found exactly once and an unknown one not at all. */
  lemma FirstIngestionExample()
    ensures var db := AddReportData(Open(EmptyFile), "2024-05-01", "2024", ["000123", "000456"]).value;
            && SearchProperty(db, "000123") == Ok([Hit("000123", 1, "2024-05-01", "2024")])
            && SearchProperty(db, "999999") == Ok([])
  {
    var empty := Open(EmptyFile);
    var props := ["000123", "000456"];
    SearchAfterAdd(empty, "2024-05-01", "2024", props, "000123");
    SearchAfterAdd(empty, "2024-05-01", "2024", props, "999999");
    assert props[..1] == ["000123"];
    assert props[..1][..0] == [];
    assert "000456" != "000123";
    assert Occurrences(props, "000123") == 1;
    assert Occurrences(props, "999999") == 0;
    assert RowId(|empty.reports|) == 1;
    assert SearchProperty(empty, "000123") == Ok([]);
    var h := Hit("000123", 1, "2024-05-01", "2024");
    var db := AddReportData(empty, "2024-05-01", "2024", props).value;
    assert SearchProperty(db, "000123") == Ok([] + seq(1, _ => Hit("000123", RowId(|empty.reports|), "2024-05-01", "2024")));
    assert seq(1, _ => Hit("000123", RowId(|empty.reports|), "2024-05-01", "2024")) == [h];
    assert [] + [h] == [h];
    assert SearchProperty(db, "000123") == Ok([h]);
  }
}
