/** handlers/remote_csv_handler.go: a CSV file fetched over HTTP; load failures are returned. */
module RemoteCsv {
  import opened Wrappers
  import opened World
  import QuestionTable

  /** The GET request, the status check and csv.Reader.ReadAll on the body. */
  function Fetch(env: Env, url: string): (r: Result<Rows, LoadError>)
    ensures r.Success? <==> url in env.web && env.web[url].status == 200 && env.web[url].body.records.Some?
    ensures r.Success? ==> r.value == env.web[url].body.records.value
    ensures url in env.web && env.web[url].status != 200 ==> r == Failure(StatusError(env.web[url].status))
  {
    if url !in env.web then Failure(TransportError(url))
    else if env.web[url].status != 200 then Failure(StatusError(env.web[url].status))
    else match env.web[url].body.records
      case None => Failure(CsvError)
      case Some(records) => Success(records)
  }

  class RemoteCSVHandler {
    const url: string
    var questions: map<string, string>

    /** NewRemoteCSVHandler. */
    constructor (url: string)
      ensures this.url == url && questions == map[]
    {
      this.url := url;
      questions := map[];
    }

    /**
     * LoadQuestions: a transport error, a status other than 200 or a CSV
     * parse error is returned with the map unchanged; otherwise every record
     * is ingested and nil is returned.
     */
    method LoadQuestions(env: Env) returns (err: Option<LoadError>)
      modifies this
      ensures err == ErrorOf(Fetch(env, url))
      ensures questions == QuestionTable.IngestRead(old(questions), Fetch(env, url))
    {
      match Fetch(env, url)
      case Failure(e) =>
        return Some(e);
      case Success(records) =>
        questions := QuestionTable.IngestRows(questions, records);
        return None;
    }

    /** FindAnswer: the answer of some question containing the query case-insensitively, "" if none; never an error. */
    method FindAnswer(query: string) returns (answer: string, err: Option<LoadError>)
      ensures err == None
      ensures (exists q :: q in questions && QuestionTable.Matches(q, query))
              ==> exists q :: q in questions && QuestionTable.Matches(q, query) && answer == questions[q]
      ensures (forall q :: q in questions ==> !QuestionTable.Matches(q, query)) ==> answer == ""
    {
      answer := QuestionTable.Lookup(questions, query);
      err := None;
    }

    /** GetQuestions: the stored map itself. */
    function GetQuestions(): (m: map<string, string>)
      reads this
      ensures m == questions
    {
      questions
    }
  }
}
