/** The `update-all` job of the worker: filter the anchors of a series-year listing page,
    reconstruct the first three accepted documents with the older transform, store each one
    that is not already stored, and tally how the units settled. The network, the DOM and
    the PDF reader are inputs; the units run one after another. */
module Worker {
  import opened JsText
  import opened Failures
  import opened Fields
  import DecOffDoc

  // ---------------------------------------------------------------------------------------
  // The anchor filter.

  /** `disallowedWordsInDocName`. */
  const DisallowedWords: seq<string> := [
    "reprimand", "withdrawal", "schedule", "set a time", "permission to start",
    "protest lodged", "protest", "cover", "alledgedly score", "right of review",
    "petition to review", "summons"
  ]

  /** The file name of an anchor: what follows its last '/', trimmed and lower-cased. */
  function AnchorFileName(href: string): string {
    Lower(Trim(SliceFrom(href, LastIndexOf(href, '/') + 1)))
  }

  /** Some disallowed word is in the (once more lower-cased) file name. */
  predicate Disallowed(fileName: string) {
    exists i :: 0 <= i < |DisallowedWords| && Contains(Lower(fileName), DisallowedWords[i])
  }

  /** The test the `forEach` applies to each anchor. */
  predicate Accepts(href: string) {
    var fileName := AnchorFileName(href);
    !Disallowed(fileName)
      && ((Contains(fileName, "decision") && Contains(fileName, "car"))
        || (Contains(fileName, "offence") && Contains(fileName, "car")))
  }

  /** `s.filter(p)`. */
  function Filter<T>(s: seq<T>, p: T -> bool): (r: seq<T>)
    ensures |r| <= |s|
  {
    if s == [] then [] else Filter(s[..|s| - 1], p) + (if p(s[|s| - 1]) then [s[|s| - 1]] else [])
  }

  /** The accepted anchors, in their order on the page. */
  function Accepted(anchors: seq<string>): seq<string> {
    Filter(anchors, Accepts)
  }

  /** The `forEach` that pushes every accepted anchor onto `allDocsHref`. */
  method CollectHrefs(anchors: seq<string>) returns (allDocsHref: seq<string>)
    ensures allDocsHref == Accepted(anchors)
  {
    allDocsHref := [];
    for i := 0 to |anchors|
      invariant allDocsHref == Filter(anchors[..i], Accepts)
    {
      assert anchors[..i + 1][..i] == anchors[..i];
      if Accepts(anchors[i]) {
        allDocsHref := allDocsHref + [anchors[i]];
      }
    }
    assert anchors[..|anchors|] == anchors;
  }

  lemma {:induction false} FilterMembers<T>(s: seq<T>, p: T -> bool)
    ensures forall x :: x in Filter(s, p) <==> x in s && p(x)
  {
    if s != [] {
      var init := s[..|s| - 1];
      FilterMembers(init, p);
      assert s == init + [s[|s| - 1]];
    }
  }

  /** An anchor is kept exactly when it is on the page and passes the test. */
  lemma AcceptedMembers(anchors: seq<string>)
    ensures forall h :: h in Accepted(anchors) <==> h in anchors && Accepts(h)
  {
    FilterMembers(anchors, Accepts);
  }

  /** `s` can be had from `t` by deleting elements. */
  predicate IsSubsequence<T(==)>(s: seq<T>, t: seq<T>)
    decreases |t|
  {
    if s == [] then true
    else if t == [] then false
    else
      || (s[|s| - 1] == t[|t| - 1] && IsSubsequence(s[..|s| - 1], t[..|t| - 1]))
      || IsSubsequence(s, t[..|t| - 1])
  }

  lemma {:induction false} FilterIsSubsequence<T>(s: seq<T>, p: T -> bool)
    ensures IsSubsequence(Filter(s, p), s)
  {
    if s != [] {
      var init := s[..|s| - 1];
      FilterIsSubsequence(init, p);
      if p(s[|s| - 1]) {
        var r := Filter(s, p);
        assert r[..|r| - 1] == Filter(init, p);
      } else {
        assert Filter(s, p) == Filter(init, p);
        if Filter(init, p) != [] {
          assert IsSubsequence(Filter(init, p), init);
        }
      }
    }
  }

  /** The accepted anchors keep their page order: they are a subsequence of the anchors. */
  lemma AcceptedIsSubsequence(anchors: seq<string>)
    ensures IsSubsequence(Accepted(anchors), anchors)
  {
    FilterIsSubsequence(anchors, Accepts);
  }

  lemma {:induction false} FilterAppend<T>(a: seq<T>, b: seq<T>, p: T -> bool)
    ensures Filter(a + b, p) == Filter(a, p) + Filter(b, p)
    decreases |b|
  {
    if b == [] {
      assert a + b == a;
    } else {
      var init := b[..|b| - 1];
      FilterAppend(a, init, p);
      assert (a + b)[..|a + b| - 1] == a + init;
    }
  }

  /** Filtering the page in two parts keeps the order across them. */
  lemma AcceptedAppend(a: seq<string>, b: seq<string>)
    ensures Accepted(a + b) == Accepted(a) + Accepted(b)
  {
    FilterAppend(a, b, Accepts);
  }

  /** A file name with a disallowed word in it is never accepted, whatever else it says. */
  lemma DisallowedRejects(href: string, i: nat)
    requires i < |DisallowedWords| && Contains(AnchorFileName(href), DisallowedWords[i])
    ensures !Accepts(href)
  {
    var f := AnchorFileName(href);
    LowerOfLowered(Trim(SliceFrom(href, LastIndexOf(href, '/') + 1)));
    assert Lower(f) == f;
  }

  lemma LowerOfLowered(s: string)
    ensures Lower(Lower(s)) == Lower(s)
  {
  }

  // ---------------------------------------------------------------------------------------
  // The store.

  /** A stored `Decision_Offence` document: the transformed record and its upload flag. */
  datatype StoredRecord = StoredRecord(data: TransformedPdfData, manualUpload: bool)

  /** The fields the `findOne` query compares. */
  datatype Query = Query(
    series: string, docType: string, docName: string, docDate: string,
    penaltyType: string, grandPrix: string, weekend: string)

  /** The query for a transformed record of the job's series. */
  function QueryOf(series: string, d: TransformedPdfData): Query {
    Query(series, d.docType, d.docName, d.docDate, d.penaltyType, d.grandPrix, d.weekend)
  }

  /** The query a stored record answers. */
  function RecordKey(r: StoredRecord): Query {
    QueryOf(r.data.series, r.data)
  }

  predicate HasMatch(records: seq<StoredRecord>, q: Query) {
    exists i :: 0 <= i < |records| && RecordKey(records[i]) == q
  }

  /** The first stored record that answers `q`. */
  function FirstMatch(records: seq<StoredRecord>, q: Query): (r: Option<StoredRecord>)
    ensures r.Some? <==> HasMatch(records, q)
    ensures r.Some? ==> r.value in records && RecordKey(r.value) == q
  {
    if records == [] then None
    else if RecordKey(records[0]) == q then Some(records[0])
    else
      var r := FirstMatch(records[1..], q);
      assert HasMatch(records[1..], q) ==> HasMatch(records, q) by {
        if HasMatch(records[1..], q) {
          var i :| 0 <= i < |records[1..]| && RecordKey(records[1..][i]) == q;
          assert records[i + 1] == records[1..][i];
        }
      }
      assert HasMatch(records, q) ==> HasMatch(records[1..], q) by {
        if HasMatch(records, q) {
          var i :| 0 <= i < |records| && RecordKey(records[i]) == q;
          assert i > 0 && records[1..][i - 1] == records[i];
        }
      }
      r
  }

  /** The `Decision_Offence` collection of the series-year database. */
  class Store {
    var records: seq<StoredRecord>

    constructor (records: seq<StoredRecord>)
      ensures this.records == records
    {
      this.records := records;
    }

    /** `findOne(query)`: a stored record answering the query, when there is one. */
    function FindOne(q: Query): (r: Option<StoredRecord>)
      reads this
      ensures r.Some? <==> HasMatch(records, q)
      ensures r.Some? ==> r.value in records && RecordKey(r.value) == q
    {
      FirstMatch(records, q)
    }

    /** `create({...transformed, manual_upload: false})`. */
    method Create(d: TransformedPdfData)
      modifies this
      ensures records == old(records) + [StoredRecord(d, false)]
    {
      records := records + [StoredRecord(d, false)];
    }
  }

  /** The store after one record is offered to it: unchanged when a stored record answers the
      record's query, the record appended otherwise. */
  function InsertIfAbsent(records: seq<StoredRecord>, series: string, d: TransformedPdfData): seq<StoredRecord> {
    if HasMatch(records, QueryOf(series, d)) then records else records + [StoredRecord(d, false)]
  }

  /** No two stored records answer the same query. */
  predicate UniqueKeys(records: seq<StoredRecord>) {
    forall i, j :: 0 <= i < j < |records| ==> RecordKey(records[i]) != RecordKey(records[j])
  }

  /** Offering a record only ever appends it, flagged as no manual upload; the records
      already stored are kept as they were. */
  lemma InsertOnlyAppends(records: seq<StoredRecord>, series: string, d: TransformedPdfData)
    ensures var r := InsertIfAbsent(records, series, d);
      && records <= r && |r| <= |records| + 1
      && (|r| == |records| + 1 <==> !HasMatch(records, QueryOf(series, d)))
      && (|r| == |records| + 1 ==> r[|records|] == StoredRecord(d, false))
  {
  }

  /** A record of the job's series offered twice is stored once: the second offer finds the
      first. */
  lemma InsertTwice(records: seq<StoredRecord>, series: string, d: TransformedPdfData)
    requires d.series == series
    ensures InsertIfAbsent(InsertIfAbsent(records, series, d), series, d) == InsertIfAbsent(records, series, d)
  {
    var r := InsertIfAbsent(records, series, d);
    if !HasMatch(records, QueryOf(series, d)) {
      assert RecordKey(r[|records|]) == QueryOf(series, d);
    }
  }

  /** The incident title is not part of the query: a record that differs from a stored one
      only in its title is not stored. */
  lemma TitleIsNotKey(records: seq<StoredRecord>, series: string, d: TransformedPdfData, title: string)
    requires d.series == series
    ensures var r := InsertIfAbsent(records, series, d);
      InsertIfAbsent(r, series, d.(incidentTitle := title)) == r
  {
    var r := InsertIfAbsent(records, series, d);
    assert QueryOf(series, d.(incidentTitle := title)) == QueryOf(series, d);
    InsertTwice(records, series, d);
  }

  /** Offering records of the job's series keeps the store free of duplicate keys. */
  lemma InsertKeepsUnique(records: seq<StoredRecord>, series: string, d: TransformedPdfData)
    requires d.series == series && UniqueKeys(records)
    ensures UniqueKeys(InsertIfAbsent(records, series, d))
  {
    var r := InsertIfAbsent(records, series, d);
    if !HasMatch(records, QueryOf(series, d)) {
      forall i, j | 0 <= i < j < |r| ensures RecordKey(r[i]) != RecordKey(r[j]) {
        if j == |records| {
          assert RecordKey(r[j]) == QueryOf(series, d);
          assert r[i] == records[i];
        }
      }
    }
  }

  // ---------------------------------------------------------------------------------------
  // One unit of work.

  /** What fetching and reading one accepted document gave: its text fragments, or an error
      of the download or of the PDF reader. */
  datatype Fetched = Unreadable | Read(pdfData: seq<string>)

  /** How the unit's promise settled. Skipping a stored record fulfils it too. */
  datatype Settled = Fulfilled | Rejected(reason: Error)

  /** The transform of every readable document stops, returning a record or throwing. */
  ghost predicate AllHalt(fetch: string -> Fetched) {
    forall h :: fetch(h).Read? ==> DecOffDoc.Halts(fetch(h).pdfData)
  }

  /** The record a unit reconstructs from an accepted href, or why it failed. */
  function UnitRecord(href: string, series: string, fetch: string -> Fetched,
                      part: (string, string) -> string): Result<TransformedPdfData>
    requires AllHalt(fetch)
  {
    match fetch(href)
    case Unreadable => Err(FetchFailed)
    case Read(pdfData) => DecOffDoc.DecOffDocument(href, pdfData, series, part)
  }

  /** Every record a unit reconstructs carries the job's series. */
  lemma UnitRecordSeries(href: string, series: string, fetch: string -> Fetched,
                         part: (string, string) -> string)
    requires AllHalt(fetch) && UnitRecord(href, series, fetch, part).Ok?
    ensures UnitRecord(href, series, fetch, part).value.series == series
  {
    var pdfData := fetch(href).pdfData;
    DecOffDoc.DecOffDocumentIsBuilt(href, pdfData, series, part);
    var trimmed := TrimAll(pdfData);
    var parts := DecOffDoc.IncidentPartsOf(trimmed).value;
    DecOffDoc.BuildRecordNames(href, trimmed, parts, series, part);
  }

  /** A readable document whose Fact list no "Offence" label ends settles its unit as
      rejected with the TypeError. */
  lemma OpenListRejected(href: string, series: string, fetch: string -> Fetched,
                         part: (string, string) -> string)
    requires AllHalt(fetch) && fetch(href).Read?
    requires var pdfData := fetch(href).pdfData;
      && DecOffDoc.HasRequiredWords(pdfData) && DecOffDoc.IncidentPartsOf(TrimAll(pdfData)).Ok?
      && GroupsOf(DecOffDoc.IncidentPartsOf(TrimAll(pdfData)).value.body, "Offence", 0).Err?
    ensures SettledOf(UnitRecord(href, series, fetch, part)) == Rejected(UndefinedAccess)
  {
    DecOffDoc.DecOffDocumentThrowsOnOpenList(href, fetch(href).pdfData, series, part);
  }

  /** What the units make of the hrefs: each href's reconstruction. The store and the tally
      below are stated for any such function; the job's own is this one. */
  function UnitOf(series: string, fetch: string -> Fetched,
                  part: (string, string) -> string): (unit: string -> Result<TransformedPdfData>)
    requires AllHalt(fetch)
  {
    h => UnitRecord(h, series, fetch, part)
  }

  /** Every record the units reconstruct carries the job's series. */
  ghost predicate OfSeries(unit: string -> Result<TransformedPdfData>, series: string) {
    forall h :: unit(h).Ok? ==> unit(h).value.series == series
  }

  lemma UnitOfSeries(series: string, fetch: string -> Fetched, part: (string, string) -> string)
    requires AllHalt(fetch)
    ensures OfSeries(UnitOf(series, fetch, part), series)
  {
    forall h | UnitRecord(h, series, fetch, part).Ok?
      ensures UnitRecord(h, series, fetch, part).value.series == series
    {
      UnitRecordSeries(h, series, fetch, part);
    }
  }

  /** How a unit's promise settles on its reconstruction. */
  function SettledOf(u: Result<TransformedPdfData>): Settled {
    if u.Ok? then Fulfilled else Rejected(u.error)
  }

  /** The store after a unit: its record offered when it has one. */
  function Offer(records: seq<StoredRecord>, series: string, u: Result<TransformedPdfData>): seq<StoredRecord> {
    if u.Ok? then InsertIfAbsent(records, series, u.value) else records
  }

  /** One unit: fetch and transform, then `findOne`, then `create` when nothing was found. */
  method ProcessUnit(store: Store, href: string, series: string, fetch: string -> Fetched,
                     part: (string, string) -> string) returns (settled: Settled)
    requires AllHalt(fetch)
    modifies store
    ensures settled == SettledOf(UnitRecord(href, series, fetch, part))
    ensures store.records == Offer(old(store.records), series, UnitRecord(href, series, fetch, part))
  {
    var readPDF := fetch(href);
    if readPDF.Unreadable? {
      return Rejected(FetchFailed);
    }
    var transformed := DecOffDoc.TransformToDecOffDoc(href, readPDF.pdfData, series, part);
    if transformed.Err? {
      return Rejected(transformed.error);
    }
    var d := transformed.value;
    var docExists := store.FindOne(QueryOf(series, d));
    if docExists.Some? {
      return Fulfilled;
    }
    store.Create(d);
    settled := Fulfilled;
  }

  // ---------------------------------------------------------------------------------------
  // The job.

  /** What the listing page request gave: a failure, or whether the page has the
      `list-view` element and the `.decision-document-list` inside it, with its anchors. */
  datatype MainPage = PageUnavailable | Page(hasListView: bool, hasDocumentList: bool, anchors: seq<string>)

  /** What the job handler returns. */
  datatype JobResult =
    | NothingToUpdate                                   // { value: 'Updating all files finished.' }
    | Summary(status: string, series: string, year: string,
              newDocumentsCount: nat, successes: nat, failures: nat)
    | JobError(error: Error)                            // { error }

  /** The hrefs the job processes: the first three accepted. */
  function FirstThree(anchors: seq<string>): (r: seq<string>)
    ensures |r| == (if |Accepted(anchors)| < 3 then |Accepted(anchors)| else 3)
    ensures r <= Accepted(anchors)
  {
    Slice(Accepted(anchors), 0, 3)
  }

  /** How the units of `hrefs` settle, in order. */
  function Settlements(hrefs: seq<string>, unit: string -> Result<TransformedPdfData>): (r: seq<Settled>)
    ensures |r| == |hrefs|
  {
    if hrefs == [] then []
    else Settlements(hrefs[..|hrefs| - 1], unit) + [SettledOf(unit(hrefs[|hrefs| - 1]))]
  }

  /** The store after the units for `hrefs` have run one after another. */
  function StoreAfter(records: seq<StoredRecord>, hrefs: seq<string>, series: string,
                      unit: string -> Result<TransformedPdfData>): seq<StoredRecord>
    decreases |hrefs|
  {
    if hrefs == [] then records
    else Offer(StoreAfter(records, hrefs[..|hrefs| - 1], series, unit), series, unit(hrefs[|hrefs| - 1]))
  }

  /** One more unit run after `hrefs`. */
  lemma UnitsStep(records: seq<StoredRecord>, hrefs: seq<string>, h: string, series: string,
                  unit: string -> Result<TransformedPdfData>)
    ensures Settlements(hrefs + [h], unit) == Settlements(hrefs, unit) + [SettledOf(unit(h))]
    ensures StoreAfter(records, hrefs + [h], series, unit) ==
      Offer(StoreAfter(records, hrefs, series, unit), series, unit(h))
  {
    assert (hrefs + [h])[..|hrefs|] == hrefs;
  }

  /** `results.filter((obj) => obj.status === 'fulfilled').length`. */
  function CountFulfilled(results: seq<Settled>): nat {
    if results == [] then 0 else (if results[0].Fulfilled? then 1 else 0) + CountFulfilled(results[1..])
  }

  /** `results.filter((obj) => obj.status === 'rejected').length`. */
  function CountRejected(results: seq<Settled>): nat {
    if results == [] then 0 else (if results[0].Rejected? then 1 else 0) + CountRejected(results[1..])
  }

  /** Every settlement is counted once: as a success or as a failure. */
  lemma {:induction false} CountsPartition(results: seq<Settled>)
    ensures CountFulfilled(results) + CountRejected(results) == |results|
  {
    if results != [] {
      CountsPartition(results[1..]);
    }
  }

  /** What the job returns. */
  function JobOutcome(page: MainPage, series: string, year: string,
                      unit: string -> Result<TransformedPdfData>): JobResult
  {
    match page
    case PageUnavailable => JobError(FetchFailed)
    case Page(hasListView, hasDocumentList, anchors) =>
      if !hasListView then JobError(MainPageMissing)
      else if !hasDocumentList then JobError(DocumentListMissing)
      else if Accepted(anchors) == [] then NothingToUpdate
      else
        var results := Settlements(FirstThree(anchors), unit);
        Summary("Finished updating all documents.", Upper(series), year,
                |Accepted(anchors)|, CountFulfilled(results), CountRejected(results))
  }

  /** The store after the job. */
  function StoreAfterJob(records: seq<StoredRecord>, page: MainPage, series: string,
                         unit: string -> Result<TransformedPdfData>): seq<StoredRecord>
  {
    if page.Page? && page.hasListView && page.hasDocumentList
    then StoreAfter(records, FirstThree(page.anchors), series, unit)
    else records
  }

  /** The units of `hrefs`, one after another, each settling on its own. */
  method RunUnits(store: Store, units: seq<string>, series: string,
                  fetch: string -> Fetched, part: (string, string) -> string) returns (results: seq<Settled>)
    requires AllHalt(fetch)
    modifies store
    ensures results == Settlements(units, UnitOf(series, fetch, part))
    ensures store.records == StoreAfter(old(store.records), units, series, UnitOf(series, fetch, part))
  {
    ghost var unit := UnitOf(series, fetch, part);
    results := [];
    for i := 0 to |units|
      invariant results == Settlements(units[..i], unit)
      invariant store.records == StoreAfter(old(store.records), units[..i], series, unit)
    {
      var settled := ProcessUnit(store, units[i], series, fetch, part);
      assert unit(units[i]) == UnitRecord(units[i], series, fetch, part);
      assert units[..i + 1] == units[..i] + [units[i]];
      UnitsStep(old(store.records), units[..i], units[i], series, unit);
      results := results + [settled];
    }
    assert units[..|units|] == units;
  }

  /** The `update-all` job handler. */
  method RunJob(store: Store, page: MainPage, series: string, year: string,
                fetch: string -> Fetched, part: (string, string) -> string) returns (result: JobResult)
    requires AllHalt(fetch)
    modifies store
    ensures result == JobOutcome(page, series, year, UnitOf(series, fetch, part))
    ensures store.records == StoreAfterJob(old(store.records), page, series, UnitOf(series, fetch, part))
  {
    if page.PageUnavailable? {
      return JobError(FetchFailed);
    }
    if !page.hasListView {
      return JobError(MainPageMissing);
    }
    if !page.hasDocumentList {
      return JobError(DocumentListMissing);
    }
    var allDocsHref := CollectHrefs(page.anchors);
    if |allDocsHref| == 0 {
      return NothingToUpdate;
    }
    var results := RunUnits(store, Slice(allDocsHref, 0, 3), series, fetch, part);
    result := Summary("Finished updating all documents.", Upper(series), year,
                      |allDocsHref|, CountFulfilled(results), CountRejected(results));
  }

  // ---------------------------------------------------------------------------------------
  // Properties of the job.

  /** The job fails, without touching the store, exactly when the page could not be read or
      lacks either container; the error names which. */
  lemma JobErrors(records: seq<StoredRecord>, page: MainPage, series: string, year: string,
                  unit: string -> Result<TransformedPdfData>)
    ensures var r := JobOutcome(page, series, year, unit);
      && (r.JobError? <==> page.PageUnavailable? || !page.hasListView || !page.hasDocumentList)
      && (r.JobError? ==> StoreAfterJob(records, page, series, unit) == records)
      && (page.PageUnavailable? ==> r == JobError(FetchFailed))
      && (page.Page? && !page.hasListView ==> r == JobError(MainPageMissing))
      && (page.Page? && page.hasListView && !page.hasDocumentList ==> r == JobError(DocumentListMissing))
  {
  }

  /** With no accepted anchor the job reports that nothing was updated and leaves the store
      as it was. */
  lemma NothingAcceptedLeavesStore(records: seq<StoredRecord>, page: MainPage, series: string,
                                   year: string, unit: string -> Result<TransformedPdfData>)
    ensures JobOutcome(page, series, year, unit) == NothingToUpdate
      <==> page.Page? && page.hasListView && page.hasDocumentList && Accepted(page.anchors) == []
    ensures JobOutcome(page, series, year, unit) == NothingToUpdate
      ==> StoreAfterJob(records, page, series, unit) == records
  {
  }

  /** The summary counts every accepted anchor as new, and as many successes and failures
      together as there were units: three, or fewer when fewer anchors were accepted. */
  lemma SummaryTally(page: MainPage, series: string, year: string,
                     unit: string -> Result<TransformedPdfData>)
    requires JobOutcome(page, series, year, unit).Summary?
    ensures var r := JobOutcome(page, series, year, unit);
      var n := |Accepted(page.anchors)|;
      && r.newDocumentsCount == n && n > 0
      && r.successes + r.failures == (if n < 3 then n else 3)
      && r.series == Upper(series)
  {
    CountsPartition(Settlements(FirstThree(page.anchors), unit));
  }

  /** The units only ever append to the store, and keep it free of duplicate keys. */
  lemma {:induction false} StoreAfterGrows(records: seq<StoredRecord>, hrefs: seq<string>, series: string,
                                           unit: string -> Result<TransformedPdfData>)
    requires OfSeries(unit, series)
    ensures var r := StoreAfter(records, hrefs, series, unit);
      records <= r && |r| <= |records| + |hrefs|
      && (UniqueKeys(records) ==> UniqueKeys(r))
    decreases |hrefs|
  {
    if hrefs != [] {
      var init := hrefs[..|hrefs| - 1];
      StoreAfterGrows(records, init, series, unit);
      var before := StoreAfter(records, init, series, unit);
      var u := unit(hrefs[|hrefs| - 1]);
      if u.Ok? {
        InsertOnlyAppends(before, series, u.value);
        if UniqueKeys(records) {
          InsertKeepsUnique(before, series, u.value);
        }
      }
    }
  }

  /** Every record the units add is the reconstruction of one of the processed hrefs, stored
      as no manual upload. */
  lemma {:induction false} StoreAfterAdds(records: seq<StoredRecord>, hrefs: seq<string>, series: string,
                                          unit: string -> Result<TransformedPdfData>, k: nat)
    requires |records| <= k < |StoreAfter(records, hrefs, series, unit)|
    ensures var x := StoreAfter(records, hrefs, series, unit)[k];
      !x.manualUpload && exists h :: h in hrefs && unit(h) == Ok(x.data)
    decreases |hrefs|
  {
    var init := hrefs[..|hrefs| - 1];
    var before := StoreAfter(records, init, series, unit);
    var h := hrefs[|hrefs| - 1];
    var u := unit(h);
    var r := StoreAfter(records, hrefs, series, unit);
    if k < |before| {
      StoreAfterAdds(records, init, series, unit, k);
      assert u.Ok? ==> r == InsertIfAbsent(before, series, u.value);
      assert r[k] == before[k];
      var x := before[k];
      var g :| g in init && unit(g) == Ok(x.data);
      assert g in hrefs;
    } else {
      assert u.Ok? && r[k] == StoredRecord(u.value, false);
      assert h in hrefs;
    }
  }

  /** Running the job twice on the same page and documents adds nothing the second time. */
  lemma StoreAfterTwice(records: seq<StoredRecord>, hrefs: seq<string>, series: string,
                        unit: string -> Result<TransformedPdfData>)
    requires OfSeries(unit, series)
    ensures var once := StoreAfter(records, hrefs, series, unit);
      StoreAfter(once, hrefs, series, unit) == once
  {
    StoredStays(records, hrefs, series, unit, |hrefs|);
    assert hrefs[..|hrefs|] == hrefs;
  }

  /** Every reconstruction of the hrefs is answered by the store after they have run. */
  lemma {:induction false} AllFound(records: seq<StoredRecord>, hrefs: seq<string>, series: string,
                                    unit: string -> Result<TransformedPdfData>, h: string)
    requires OfSeries(unit, series) && h in hrefs && unit(h).Ok?
    ensures HasMatch(StoreAfter(records, hrefs, series, unit), QueryOf(series, unit(h).value))
    decreases |hrefs|
  {
    var init := hrefs[..|hrefs| - 1];
    var last := hrefs[|hrefs| - 1];
    var before := StoreAfter(records, init, series, unit);
    var u := unit(last);
    var q := QueryOf(series, unit(h).value);
    if h in init {
      AllFound(records, init, series, unit, h);
      if u.Ok? {
        MatchSurvivesInsert(before, series, u.value, q);
      }
    } else {
      assert h == last;
      InsertedIsFound(before, series, u.value);
    }
  }

  /** A stored record that answers a query still does after an offer. */
  lemma MatchSurvivesInsert(records: seq<StoredRecord>, series: string, d: TransformedPdfData, q: Query)
    requires HasMatch(records, q)
    ensures HasMatch(InsertIfAbsent(records, series, d), q)
  {
    var r := InsertIfAbsent(records, series, d);
    var i :| 0 <= i < |records| && RecordKey(records[i]) == q;
    assert r[i] == records[i];
  }

  /** A record of the job's series is answered by the store once offered. */
  lemma InsertedIsFound(records: seq<StoredRecord>, series: string, d: TransformedPdfData)
    requires d.series == series
    ensures HasMatch(InsertIfAbsent(records, series, d), QueryOf(series, d))
  {
    if !HasMatch(records, QueryOf(series, d)) {
      var r := InsertIfAbsent(records, series, d);
      assert RecordKey(r[|records|]) == QueryOf(series, d);
    }
  }

  /** Having run once, every prefix of the second run leaves the store as the first left it. */
  lemma {:induction false} StoredStays(records: seq<StoredRecord>, hrefs: seq<string>, series: string,
                                       unit: string -> Result<TransformedPdfData>, j: nat)
    requires OfSeries(unit, series) && j <= |hrefs|
    ensures var once := StoreAfter(records, hrefs, series, unit);
      StoreAfter(once, hrefs[..j], series, unit) == once
    decreases j
  {
    var once := StoreAfter(records, hrefs, series, unit);
    if j > 0 {
      StoredStays(records, hrefs, series, unit, j - 1);
      assert hrefs[..j][..j - 1] == hrefs[..j - 1];
      var h := hrefs[j - 1];
      assert hrefs[..j][j - 1] == h;
      if unit(h).Ok? {
        AllFound(records, hrefs, series, unit, h);
      }
    }
  }

  /** For the job itself: the units' records carry the job's series, so a second run of the
      job on the same page and documents leaves the store as the first run left it. */
  lemma JobTwice(records: seq<StoredRecord>, page: MainPage, series: string,
                 fetch: string -> Fetched, part: (string, string) -> string)
    requires AllHalt(fetch)
    ensures var unit := UnitOf(series, fetch, part);
      var once := StoreAfterJob(records, page, series, unit);
      StoreAfterJob(once, page, series, unit) == once
  {
    var unit := UnitOf(series, fetch, part);
    UnitOfSeries(series, fetch, part);
    if page.Page? && page.hasListView && page.hasDocumentList {
      StoreAfterTwice(records, FirstThree(page.anchors), series, unit);
    }
  }
}
