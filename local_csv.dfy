/** handlers/csv_handler.go: a CSV file on local disk; load failures are logged and skipped. */
module LocalCsv {
  import opened Wrappers
  import opened World
  import QuestionTable

  /** os.Stat, os.Open and csv.Reader.ReadAll on the handler's path. */
  function Read(env: Env, path: string): (r: Result<Rows, LoadError>)
    ensures r.Success? <==> path in env.files && env.files[path].openable && env.files[path].content.records.Some?
    ensures r.Success? ==> r.value == env.files[path].content.records.value
  {
    if path !in env.files then Failure(FileMissing(path))
    else if !env.files[path].openable then Failure(FileError(path))
    else match env.files[path].content.records
      case None => Failure(CsvError)
      case Some(records) => Success(records)
  }

  class CSVHandler {
    const path: string
    var questions: map<string, string>

    /** NewCSVHandler. */
    constructor (path: string)
      ensures this.path == path && questions == map[]
    {
      this.path := path;
      questions := map[];
    }

    /**
     * LoadQuestions: a missing file, an open failure or a read failure is
     * logged and skipped (nil error, map unchanged); otherwise every record
     * is ingested.
     */
    method LoadQuestions(env: Env) returns (err: Option<LoadError>)
      modifies this
      ensures err == None
      ensures questions == QuestionTable.IngestRead(old(questions), Read(env, path))
    {
      match Read(env, path)
      case Failure(_) =>
        return None;
      case Success(records) =>
        questions := QuestionTable.IngestRows(questions, records);
        return None;
    }

    /** FindAnswer: the answer of some question containing the query case-insensitively, "" if none; never an error. */
    method FindAnswer(query: string) returns (answer: string, err: Option<LoadError>)
      ensures err == None
      ensures (exists q :: q in questions && QuestionTable.Matches(q, query))
              ==> exists q :: q in questions && QuestionTable.Matches(q, query) && answer == questions[q]
      ensures (forall q :: q in questions ==> !QuestionTable.Matches(q, query)) ==> answer == ""
    {
      answer := QuestionTable.Lookup(questions, query);
      err := None;
    }

    /** GetQuestions: the stored map itself. */
    function GetQuestions(): (m: map<string, string>)
      reads this
      ensures m == questions
    {
      questions
    }
  }
}
