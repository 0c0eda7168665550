/** services/handlers/excel_handler.go: the older workbook handler; reads "Sheet1" and returns every error. */
module LegacyExcel {
  import opened Wrappers
  import opened World
  import QuestionTable

  /** The sheet the older handler reads, whatever the workbook's first sheet is. */
  const SheetOne := "Sheet1"

  /** excelize.OpenFile and GetRows("Sheet1") on the handler's path. */
  function Open(env: Env, path: string): (r: Result<Rows, LoadError>)
    ensures r.Success? <==> path in env.files && env.files[path].openable && env.files[path].content.workbook.Some?
                            && GetRows(env.files[path].content.workbook.value, SheetOne).Some?
    ensures r.Success? ==> r.value == GetRows(env.files[path].content.workbook.value, SheetOne).value
  {
    if path !in env.files then Failure(FileMissing(path))
    else if !env.files[path].openable then Failure(FileError(path))
    else match env.files[path].content.workbook
      case None => Failure(WorkbookError)
      case Some(wb) =>
        match GetRows(wb, SheetOne)
        case None => Failure(RowsError(SheetOne))
        case Some(rows) => Success(rows)
  }

  class ExcelHandler {
    const path: string
    var questions: map<string, string>

    /** NewExcelHandler. */
    constructor (path: string)
      ensures this.path == path && questions == map[]
    {
      this.path := path;
      questions := map[];
    }

    /**
     * LoadQuestions: an open failure or a failure to read "Sheet1" is
     * returned with the map unchanged; otherwise the sheet's rows are
     * ingested.
     */
    method LoadQuestions(env: Env) returns (err: Option<LoadError>)
      modifies this
      ensures err == ErrorOf(Open(env, path))
      ensures questions == QuestionTable.IngestRead(old(questions), Open(env, path))
    {
      match Open(env, path)
      case Failure(e) =>
        return Some(e);
      case Success(rows) =>
        questions := QuestionTable.IngestRows(questions, rows);
        return None;
    }

    /** FindAnswer: the answer of some question containing the query case-insensitively, "" if none; nil error. */
    method FindAnswer(query: string) returns (answer: string, err: Option<LoadError>)
      ensures err == None
      ensures (exists q :: q in questions && QuestionTable.Matches(q, query))
              ==> exists q :: q in questions && QuestionTable.Matches(q, query) && answer == questions[q]
      ensures (forall q :: q in questions ==> !QuestionTable.Matches(q, query)) ==> answer == ""
    {
      answer := QuestionTable.Lookup(questions, query);
      err := None;
    }

    /** GetQuestions: the stored map itself. */
    function GetQuestions(): (m: map<string, string>)
      reads this
      ensures m == questions
    {
      questions
    }
  }
}
