/** handlers/remote_excel_handler.go: a workbook fetched over HTTP, first sheet; load failures are returned. */
module RemoteExcel {
  import opened Wrappers
  import opened World
  import QuestionTable

  /** The GET request, the status check, excelize.OpenReader and GetRows(GetSheetName(0)). */
  function Fetch(env: Env, url: string): (r: Result<Rows, LoadError>)
    ensures r.Success? <==> url in env.web && env.web[url].status == 200 && env.web[url].body.workbook.Some?
                            && GetRows(env.web[url].body.workbook.value, SheetName(env.web[url].body.workbook.value, 0)).Some?
    ensures r.Success? ==> var wb := env.web[url].body.workbook.value; r.value == GetRows(wb, SheetName(wb, 0)).value
    ensures url in env.web && env.web[url].status != 200 ==> r == Failure(StatusError(env.web[url].status))
  {
    if url !in env.web then Failure(TransportError(url))
    else if env.web[url].status != 200 then Failure(StatusError(env.web[url].status))
    else match env.web[url].body.workbook
      case None => Failure(WorkbookError)
      case Some(wb) =>
        var sheet := SheetName(wb, 0);
        match GetRows(wb, sheet)
        case None => Failure(RowsError(sheet))
        case Some(rows) => Success(rows)
  }

  class RemoteExcelHandler {
    const url: string
    var questions: map<string, string>

    /** NewRemoteExcelHandler. */
    constructor (url: string)
      ensures this.url == url && questions == map[]
    {
      this.url := url;
      questions := map[];
    }

    /**
     * LoadQuestions: a transport error, a status other than 200, a workbook
     * that does not open or a row-read failure is returned with the map
     * unchanged; otherwise the first sheet's rows are ingested.
     */
    method LoadQuestions(env: Env) returns (err: Option<LoadError>)
      modifies this
      ensures err == ErrorOf(Fetch(env, url))
      ensures questions == QuestionTable.IngestRead(old(questions), Fetch(env, url))
    {
      match Fetch(env, url)
      case Failure(e) =>
        return Some(e);
      case Success(rows) =>
        questions := QuestionTable.IngestRows(questions, rows);
        return None;
    }

    /** FindAnswer: the answer of some question containing the query case-insensitively, "" if none; never an error. */
    method FindAnswer(query: string) returns (answer: string, err: Option<LoadError>)
      ensures err == None
      ensures (exists q :: q in questions && QuestionTable.Matches(q, query))
              ==> exists q :: q in questions && QuestionTable.Matches(q, query) && answer == questions[q]
      ensures (forall q :: q in questions ==> !QuestionTable.Matches(q, query)) ==> answer == ""
    {
      answer := QuestionTable.Lookup(questions, query);
      err := None;
    }

    /** GetQuestions: the stored map itself. */
    function GetQuestions(): (m: map<string, string>)
      reads this
      ensures m == questions
    {
      questions
    }
  }
}
