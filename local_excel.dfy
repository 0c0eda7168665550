/** handlers/excel_handler.go: a workbook on local disk, first sheet; load failures are logged and skipped. */
module LocalExcel {
  import opened Wrappers
  import opened World
  import QuestionTable

  /** os.Stat, excelize.OpenFile and GetRows(GetSheetName(0)) on the handler's path. */
  function Read(env: Env, path: string): (r: Result<Rows, LoadError>)
    ensures r.Success? <==> path in env.files && env.files[path].openable && env.files[path].content.workbook.Some?
                            && GetRows(env.files[path].content.workbook.value, SheetName(env.files[path].content.workbook.value, 0)).Some?
    ensures r.Success? ==> var wb := env.files[path].content.workbook.value; r.value == GetRows(wb, SheetName(wb, 0)).value
  {
    if path !in env.files then Failure(FileMissing(path))
    else if !env.files[path].openable then Failure(FileError(path))
    else match env.files[path].content.workbook
      case None => Failure(WorkbookError)
      case Some(wb) =>
        var sheet := SheetName(wb, 0);
        match GetRows(wb, sheet)
        case None => Failure(RowsError(sheet))
        case Some(rows) => Success(rows)
  }

  class ExcelHandler {
    const path: string
    var questions: map<string, string>

    /** NewExcelHandler. */
    constructor (path: string)
      ensures this.path == path && questions == map[]
    {
      this.path := path;
      questions := map[];
    }

    /**
     * LoadQuestions: "file not found", an open failure or a row-read failure
     * is logged and skipped (nil error, map unchanged); otherwise the first
     * sheet's rows are ingested.
     */
    method LoadQuestions(env: Env) returns (err: Option<LoadError>)
      modifies this
      ensures err == None
      ensures questions == QuestionTable.IngestRead(old(questions), Read(env, path))
    {
      match Read(env, path)
      case Failure(_) =>
        return None;
      case Success(rows) =>
        questions := QuestionTable.IngestRows(questions, rows);
        return None;
    }

    /** FindAnswer: the answer of some question containing the query case-insensitively, "" if none; never an error. */
    method FindAnswer(query: string) returns (answer: string, err: Option<LoadError>)
      ensures err == None
      ensures (exists q :: q in questions && QuestionTable.Matches(q, query))
              ==> exists q :: q in questions && QuestionTable.Matches(q, query) && answer == questions[q]
      ensures (forall q :: q in questions ==> !QuestionTable.Matches(q, query)) ==> answer == ""
    {
      answer := QuestionTable.Lookup(questions, query);
      err := None;
    }

    /** GetQuestions: the stored map itself. */
    function GetQuestions(): (m: map<string, string>)
      reads this
      ensures m == questions
    {
      questions
    }
  }
}
