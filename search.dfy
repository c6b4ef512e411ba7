/** The /search handler (aiapp/api.py, search): after the folder and files
    pass validation and the query is not blank, one sample result row is
    built per requested file, in request order. */
module Search {
  import opened Text
  import opened Http
  import opened Metadata
  import opened Validation

  /** The length bounds pydantic enforces on a search request. */
  const MaxQueryLength: nat := 5000
  const MaxFolderIdLength: nat := 200
  const ResultSource: string := "FastAPI"

  /** The request body; the test-only delay knobs are left out. */
  datatype SearchRequest = SearchRequest(query: string, folderId: string, files: seq<string>)

  /** The Field bounds: a query of 1..5000 characters, a folder id of
      1..200 characters and at least one file. */
  predicate ValidSearchRequest(req: SearchRequest) {
    1 <= |req.query| <= MaxQueryLength && 1 <= |req.folderId| <= MaxFolderIdLength && |req.files| >= 1
  }

  /** One row of "LLMRESPONSE". The score is kept in hundredths: the source
      stores round(0.85 + (idx % 10) * 0.01, 2). */
  datatype ResultRow = ResultRow(
    resultId: nat, folderId: string, file: string, query: string,
    scoreCents: nat, page: nat, line: nat, snippet: string, source: string)

  function Snippet(q: string, f: string): string {
    "Found '" + q + "' in " + f + " (sample snippet)"
  }

  /** The row for the idx-th requested file (counting from 1). */
  function MakeRow(idx: nat, folderId: string, f: string, q: string): (row: ResultRow)
    ensures row.resultId == idx && row.file == f && row.folderId == folderId && row.query == q
    ensures 85 <= row.scoreCents <= 94 && 1 <= row.page <= 5 && row.line == 10 + idx
  {
    ResultRow(idx, folderId, f, q, 85 + idx % 10, 1 + idx % 5, 10 + idx, Snippet(q, f), ResultSource)
  }

  /** The rows for a list of files: one per file, numbered from 1 in order. */
  function Rows(folderId: string, files: seq<string>, q: string): (rows: seq<ResultRow>)
    ensures |rows| == |files|
    ensures forall k :: 0 <= k < |files| ==> rows[k] == MakeRow(k + 1, folderId, files[k], q)
    decreases |files|
  {
    if files == [] then []
    else
      var n := |files| - 1;
      var front := Rows(folderId, files[..n], q);
      assert forall k :: 0 <= k < n ==> files[..n][k] == files[k];
      front + [MakeRow(n + 1, folderId, files[n], q)]
  }

  /** search: validation errors first, then a blank query, then the rows
      (the file names as given, the query stripped). */
  function SearchResult(fs: seq<Folder>, req: SearchRequest, disk: Disk): (r: Result<seq<ResultRow>>)
    ensures ValidationResult(fs, req.folderId, Checks(req.files), disk).Failure?
            ==> r == Failure(ValidationResult(fs, req.folderId, Checks(req.files), disk).error)
    ensures ValidationResult(fs, req.folderId, Checks(req.files), disk).Success? && Strip(req.query) == []
            ==> r == Failure(Error(400, QueryRequired))
    ensures r.Success? <==> ValidationResult(fs, req.folderId, Checks(req.files), disk).Success? && Strip(req.query) != []
    ensures r.Success? ==> |r.value| == |req.files|
  {
    match ValidationResult(fs, req.folderId, Checks(req.files), disk)
    case Failure(e) => Failure(e)
    case Success(_) =>
      var q := Strip(req.query);
      if q == [] then Failure(Error(400, QueryRequired))
      else Success(Rows(req.folderId, req.files, q))
  }

  /** The rows of a successful search: the k-th carries id k + 1, the k-th
      requested file, the folder id and the stripped query; its score lies in
      0.85..0.94, its page in 1..5 and its line is 10 past its id. */
  lemma SearchRowsFacts(fs: seq<Folder>, req: SearchRequest, disk: Disk)
    requires SearchResult(fs, req, disk).Success?
    ensures var rows := SearchResult(fs, req, disk).value;
            forall k :: 0 <= k < |rows| ==>
              && rows[k].resultId == k + 1
              && rows[k].file == req.files[k]
              && rows[k].folderId == req.folderId
              && rows[k].query == Strip(req.query) && rows[k].query != []
              && 85 <= rows[k].scoreCents <= 94 && 1 <= rows[k].page <= 5 && rows[k].line == 11 + k
  {
  }

  /** Result ids are distinct, and rows of files requested twice differ in
      their ids. */
  lemma {:induction false} SearchIdsDistinct(fs: seq<Folder>, req: SearchRequest, disk: Disk)
    requires SearchResult(fs, req, disk).Success?
    ensures var rows := SearchResult(fs, req, disk).value;
            forall i, j :: 0 <= i < j < |rows| ==> rows[i].resultId < rows[j].resultId
  {
    SearchRowsFacts(fs, req, disk);
  }

  /** A request that pydantic lets through gets at least one row whenever
      search succeeds. */
  lemma SearchNonEmpty(fs: seq<Folder>, req: SearchRequest, disk: Disk)
    requires ValidSearchRequest(req) && SearchResult(fs, req, disk).Success?
    ensures |SearchResult(fs, req, disk).value| >= 1
  {
  }

  /** The results loop of search: one row appended per file. */
  method BuildRows(folderId: string, files: seq<string>, q: string) returns (results: seq<ResultRow>)
    ensures results == Rows(folderId, files, q)
  {
    results := [];
    var k := 0;
    while k < |files|
      invariant 0 <= k <= |files|
      invariant results == Rows(folderId, files[..k], q)
    {
      assert files[..k + 1][..k] == files[..k];
      results := results + [MakeRow(k + 1, folderId, files[k], q)];
      k := k + 1;
    }
    assert files[..k] == files;
  }

  /** search: validate, refuse a blank query, build the rows. */
  method Search(fs: seq<Folder>, req: SearchRequest, disk: Disk) returns (r: Result<seq<ResultRow>>)
    ensures r == SearchResult(fs, req, disk)
  {
    var checked := ValidateFolderFiles(fs, req.folderId, req.files, disk);
    if checked.Failure? {
      return Failure(checked.error);
    }
    var q := Strip(req.query);
    if q == [] {
      return Failure(Error(400, QueryRequired));
    }
    var results := BuildRows(req.folderId, req.files, q);
    return Success(results);
  }
}
