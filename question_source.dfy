/**
 * interfaces/faq_source.go: the QuestionAnswerSource interface
 * (LoadQuestions, FindAnswer, GetQuestions). Its five implementations are
 * the variants of `Source`, each wrapping its handler object; the
 * functions and methods here dispatch to them.
 */
module QuestionSource {
  import opened Wrappers
  import opened World
  import QuestionTable
  import LocalCsv
  import LocalExcel
  import RemoteCsv
  import RemoteExcel
  import LegacyExcel

  datatype Source =
    | CsvFile(csvFile: LocalCsv.CSVHandler)
    | ExcelFile(excelFile: LocalExcel.ExcelHandler)
    | CsvUrl(csvUrl: RemoteCsv.RemoteCSVHandler)
    | ExcelUrl(excelUrl: RemoteExcel.RemoteExcelHandler)
    | LegacyExcelFile(legacyFile: LegacyExcel.ExcelHandler)

  /** The handler object behind a source. */
  function Obj(s: Source): object
  {
    match s
    case CsvFile(h) => h
    case ExcelFile(h) => h
    case CsvUrl(h) => h
    case ExcelUrl(h) => h
    case LegacyExcelFile(h) => h
  }

  /** Two sources over the same handler object are the same source. */
  lemma SameObjectSameSource(s: Source, t: Source)
    requires Obj(s) == Obj(t)
    ensures s == t
  {
  }

  /** The handler objects of a list of sources. */
  ghost function Objs(srcs: seq<Source>): set<object>
  {
    set s | s in srcs :: Obj(s)
  }

  /** GetQuestions: the source's current question -> answer map. */
  function GetQuestions(s: Source): (m: map<string, string>)
    reads Obj(s)
  {
    match s
    case CsvFile(h) => h.GetQuestions()
    case ExcelFile(h) => h.GetQuestions()
    case CsvUrl(h) => h.GetQuestions()
    case ExcelUrl(h) => h.GetQuestions()
    case LegacyExcelFile(h) => h.GetQuestions()
  }

  /** When no handler object changed, every source holds the questions it held before. */
  twostate lemma QuestionsUnchanged(srcs: seq<Source>)
    requires unchanged(Objs(srcs))
    ensures forall k :: 0 <= k < |srcs| ==> GetQuestions(srcs[k]) == old(GetQuestions(srcs[k]))
  {
    forall k | 0 <= k < |srcs|
      ensures GetQuestions(srcs[k]) == old(GetQuestions(srcs[k]))
    {
      assert Obj(srcs[k]) in Objs(srcs);
    }
  }

  /** When no handler object changed, the question maps are the ones before. */
  twostate lemma TablesUnchanged(srcs: seq<Source>)
    requires unchanged(Objs(srcs))
    ensures Tables(srcs) == old(Tables(srcs))
  {
    QuestionsUnchanged(srcs);
  }

  /** What a source's load obtains from the world: its rows or the stage that failed. */
  function Read(s: Source, env: Env): Result<Rows, LoadError>
  {
    match s
    case CsvFile(h) => LocalCsv.Read(env, h.path)
    case ExcelFile(h) => LocalExcel.Read(env, h.path)
    case CsvUrl(h) => RemoteCsv.Fetch(env, h.url)
    case ExcelUrl(h) => RemoteExcel.Fetch(env, h.url)
    case LegacyExcelFile(h) => LegacyExcel.Open(env, h.path)
  }

  /** The error LoadQuestions returns: local handlers log and skip, the others return the failure. */
  function Reported(s: Source, env: Env): (e: Option<LoadError>)
    ensures (s.CsvFile? || s.ExcelFile?) ==> e == None
    ensures !(s.CsvFile? || s.ExcelFile?) ==> (e.None? <==> Read(s, env).Success?)
  {
    if s.CsvFile? || s.ExcelFile? then None else ErrorOf(Read(s, env))
  }

  /** The map a source holds after loading, from the map m it held before. */
  function Loaded(s: Source, m: map<string, string>, env: Env): map<string, string>
  {
    QuestionTable.IngestRead(m, Read(s, env))
  }

  /** Loading a source a second time from the same world leaves its map as the first load left it. */
  lemma LoadedIdempotent(s: Source, m: map<string, string>, env: Env)
    ensures Loaded(s, Loaded(s, m, env), env) == Loaded(s, m, env)
  {
    QuestionTable.IngestReadIdempotent(m, Read(s, env));
  }

  /** LoadQuestions through the interface. */
  method LoadQuestions(s: Source, env: Env) returns (err: Option<LoadError>)
    modifies Obj(s)
    ensures err == Reported(s, env)
    ensures GetQuestions(s) == Loaded(s, old(GetQuestions(s)), env)
  {
    match s
    case CsvFile(h) => err := h.LoadQuestions(env);
    case ExcelFile(h) => err := h.LoadQuestions(env);
    case CsvUrl(h) => err := h.LoadQuestions(env);
    case ExcelUrl(h) => err := h.LoadQuestions(env);
    case LegacyExcelFile(h) => err := h.LoadQuestions(env);
  }

  /** FindAnswer through the interface. */
  method FindAnswer(s: Source, query: string) returns (answer: string, err: Option<LoadError>)
    ensures err == None
    ensures (exists q :: q in GetQuestions(s) && QuestionTable.Matches(q, query))
            ==> exists q :: q in GetQuestions(s) && QuestionTable.Matches(q, query) && answer == GetQuestions(s)[q]
    ensures (forall q :: q in GetQuestions(s) ==> !QuestionTable.Matches(q, query)) ==> answer == ""
  {
    match s
    case CsvFile(h) => answer, err := h.FindAnswer(query);
    case ExcelFile(h) => answer, err := h.FindAnswer(query);
    case CsvUrl(h) => answer, err := h.FindAnswer(query);
    case ExcelUrl(h) => answer, err := h.FindAnswer(query);
    case LegacyExcelFile(h) => answer, err := h.FindAnswer(query);
  }

  /** The question maps of a list of sources, as they stand now. */
  ghost function Tables(srcs: seq<Source>): (ts: seq<map<string, string>>)
    reads Objs(srcs)
    ensures |ts| == |srcs|
    ensures forall k :: 0 <= k < |srcs| ==> ts[k] == GetQuestions(srcs[k])
  {
    if srcs == [] then []
    else Tables(srcs[..|srcs| - 1]) + [GetQuestions(srcs[|srcs| - 1])]
  }

  /** The maps of a prefix of the sources are that prefix of the maps. */
  lemma TablesPrefix(srcs: seq<Source>, i: nat)
    requires i <= |srcs|
    ensures Tables(srcs[..i]) == Tables(srcs)[..i]
  {
  }

  /** How many sources load before the first one that reports an error (all of them if none does). */
  function LoadedCount(srcs: seq<Source>, env: Env): (n: nat)
    ensures n <= |srcs|
    ensures n < |srcs| ==> Reported(srcs[n], env).Some?
  {
    if srcs == [] then 0
    else if Reported(srcs[0], env).Some? then 0
    else 1 + LoadedCount(srcs[1..], env)
  }

  /** Every source before the count loads without reporting an error. */
  lemma {:induction false} LoadedCountClean(srcs: seq<Source>, env: Env, k: nat)
    requires k < LoadedCount(srcs, env)
    ensures Reported(srcs[k], env).None?
  {
    if k > 0 {
      LoadedCountClean(srcs[1..], env, k - 1);
    }
  }

  /** The first i sources all load without reporting an error. */
  ghost predicate LoadsCleanly(srcs: seq<Source>, i: nat, env: Env)
    decreases i
  {
    i == 0 || (|srcs| > 0 && Reported(srcs[0], env).None? && LoadsCleanly(srcs[1..], i - 1, env))
  }

  /** A clean prefix followed by a clean source is a longer clean prefix. */
  lemma {:induction false} CleanOneMore(srcs: seq<Source>, i: nat, env: Env)
    requires i < |srcs|
    requires LoadsCleanly(srcs, i, env) && Reported(srcs[i], env).None?
    ensures LoadsCleanly(srcs, i + 1, env)
    decreases i
  {
    if i > 0 {
      assert srcs[1..][i - 1] == srcs[i];
      CleanOneMore(srcs[1..], i - 1, env);
    }
  }

  /** A clean prefix that ends at the list's end or at a failing source is what LoadedCount counts. */
  lemma {:induction false} CountFromClean(srcs: seq<Source>, env: Env, i: nat)
    requires i <= |srcs|
    requires LoadsCleanly(srcs, i, env)
    requires i < |srcs| ==> Reported(srcs[i], env).Some?
    ensures LoadedCount(srcs, env) == i
    decreases i
  {
    if i > 0 {
      assert i - 1 < |srcs[1..]| ==> srcs[1..][i - 1] == srcs[i];
      CountFromClean(srcs[1..], env, i - 1);
    }
  }

  /**
   * Each source's map, as listed in tables: loaded once from its initial
   * map if the source is among the first i, its initial map otherwise.
   */
  ghost predicate LoadedUpTo(tables: seq<map<string, string>>, srcs: seq<Source>, i: nat,
                             initial: seq<map<string, string>>, target: seq<map<string, string>>)
  {
    && i <= |srcs| == |tables| == |initial| == |target|
    && forall k :: 0 <= k < |srcs| ==> tables[k] == if srcs[k] in srcs[..i] then target[k] else initial[k]
  }

  /** The map each source holds after one load from its initial map. */
  ghost predicate Targets(srcs: seq<Source>, initial: seq<map<string, string>>, target: seq<map<string, string>>, env: Env)
    decreases |srcs|
  {
    && |srcs| == |initial| == |target|
    && (|srcs| > 0 ==>
          && target[0] == Loaded(srcs[0], initial[0], env)
          && Targets(srcs[1..], initial[1..], target[1..], env))
  }

  /** The k-th target is the k-th source loaded from its initial map. */
  lemma {:induction false} TargetAt(srcs: seq<Source>, initial: seq<map<string, string>>,
                                    target: seq<map<string, string>>, env: Env, k: nat)
    requires Targets(srcs, initial, target, env)
    requires k < |srcs|
    ensures target[k] == Loaded(srcs[k], initial[k], env)
  {
    if k > 0 {
      TargetAt(srcs[1..], initial[1..], target[1..], env, k - 1);
    }
  }

  ghost function LoadTargets(srcs: seq<Source>, initial: seq<map<string, string>>, env: Env): (t: seq<map<string, string>>)
    requires |srcs| == |initial|
    ensures Targets(srcs, initial, t, env)
    decreases |srcs|
  {
    if srcs == [] then []
    else
      var rest := LoadTargets(srcs[1..], initial[1..], env);
      assert ([Loaded(srcs[0], initial[0], env)] + rest)[1..] == rest;
      [Loaded(srcs[0], initial[0], env)] + rest
  }

  /** One iteration's LoadQuestions: the loaded prefix grows by one. */
  method LoadOne(srcs: seq<Source>, i: nat, ghost initial: seq<map<string, string>>, ghost target: seq<map<string, string>>, env: Env)
    returns (err: Option<LoadError>)
    requires i < |srcs|
    requires Targets(srcs, initial, target, env)
    requires LoadedUpTo(Tables(srcs), srcs, i, initial, target)
    modifies Obj(srcs[i])
    ensures err == Reported(srcs[i], env)
    ensures LoadedUpTo(Tables(srcs), srcs, i + 1, initial, target)
  {
    ghost var source := srcs[i];
    err := LoadQuestions(srcs[i], env);
    forall k | 0 <= k < |srcs|
      ensures GetQuestions(srcs[k])
              == if srcs[k] in srcs[..i + 1] then target[k] else initial[k]
    {
      assert srcs[..i + 1] == srcs[..i] + [source];
      TargetAt(srcs, initial, target, env, k);
      if Obj(srcs[k]) == Obj(source) {
        SameObjectSameSource(srcs[k], source);
        LoadedIdempotent(source, initial[k], env);
      }
    }
  }

  /**
   * tables are the maps of srcs after the first `calls` of them were
   * loaded, from their maps `initial` before: a source among those loaded
   * (once or several times) holds Loaded of its initial map, any other its
   * initial map.
   */
  ghost predicate LoadedOnce(tables: seq<map<string, string>>, srcs: seq<Source>, calls: nat,
                             initial: seq<map<string, string>>, env: Env)
  {
    && |tables| == |srcs| == |initial|
    && calls <= |srcs|
    && forall k :: 0 <= k < |srcs| ==>
         tables[k] == if srcs[k] in srcs[..calls] then Loaded(srcs[k], initial[k], env) else initial[k]
  }

  /** The loaded-prefix invariant, restated against the maps the sources held before loading. */
  lemma LoadedResult(tables: seq<map<string, string>>, srcs: seq<Source>, calls: nat,
                     initial: seq<map<string, string>>, target: seq<map<string, string>>, env: Env)
    requires Targets(srcs, initial, target, env)
    requires LoadedUpTo(tables, srcs, calls, initial, target)
    ensures LoadedOnce(tables, srcs, calls, initial, env)
  {
    forall k | 0 <= k < |srcs|
      ensures tables[k] == if srcs[k] in srcs[..calls] then Loaded(srcs[k], initial[k], env) else initial[k]
    {
      TargetAt(srcs, initial, target, env, k);
    }
  }

  /** The first i sources are loaded, so their maps are their targets. */
  lemma LoadedPrefixIsTarget(tables: seq<map<string, string>>, srcs: seq<Source>, i: nat, calls: nat,
                             initial: seq<map<string, string>>, target: seq<map<string, string>>)
    requires i <= calls
    requires LoadedUpTo(tables, srcs, calls, initial, target)
    ensures tables[..i] == target[..i]
  {
    forall k | 0 <= k < i
      ensures tables[k] == target[k]
    {
      assert srcs[k] in srcs[..calls];
    }
  }

  /** Where the loop of LoadAllSources stops: the count of clean loads, and every source's map after it. */
  lemma LoadsFinished(tables: seq<map<string, string>>, srcs: seq<Source>, i: nat,
                      initial: seq<map<string, string>>, target: seq<map<string, string>>, env: Env)
    requires i <= |srcs|
    requires LoadsCleanly(srcs, i, env)
    requires i < |srcs| ==> Reported(srcs[i], env).Some?
    requires Targets(srcs, initial, target, env)
    requires LoadedUpTo(tables, srcs, if i < |srcs| then i + 1 else i, initial, target)
    ensures LoadedCount(srcs, env) == i
    ensures var n := LoadedCount(srcs, env);
            LoadedOnce(tables, srcs, if n < |srcs| then n + 1 else n, initial, env)
  {
    CountFromClean(srcs, env, i);
    LoadedResult(tables, srcs, if i < |srcs| then i + 1 else i, initial, target, env);
  }
}
