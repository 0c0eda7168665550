/**
 * services/qa_service.go: the older question-answer service. It has no
 * result cache and no word catalog; it scores a question by counting the
 * question's tokens, repetitions included, that occur among the query's
 * tokens, and it picks the tokenizer for both texts from the query alone.
 */
module QaService {
  import opened Wrappers
  import opened Text
  import opened Similarity
  import opened World
  import QuestionSource
  import QuestionTable
  import Ranking

  /** The error FindBestAnswer returns when no candidate passes. */
  const NotFound := "no matching answers found"

  datatype AnswerResult = AnswerResult(answer: string, confidence: real, timestamp: Timestamp)

  /** The sort key. */
  function ConfidenceOf(r: AnswerResult): real
  {
    r.confidence
  }

  // ---------------------------------------------------------------
  // Scoring
  // ---------------------------------------------------------------

  /** A token list in which no token occurs twice. */
  predicate NoRepeats(ws: seq<string>)
  {
    forall i, j :: 0 <= i < j < |ws| ==> ws[i] != ws[j]
  }

  /** How many entries of ws, counted with repetition, lie in u. */
  function CountIn(ws: seq<string>, u: set<string>): (n: nat)
    ensures n <= |ws|
    decreases |ws|
  {
    if ws == [] then 0
    else CountIn(ws[..|ws| - 1], u) + (if ws[|ws| - 1] in u then 1 else 0)
  }

  /** The tokens of one text: the segmenter when `thai` holds, else the whitespace fields. */
  function Tokenize(text: string, thai: bool, segment: Segmenter): seq<string>
  {
    if thai then segment(Lower(text)) else Fields(Lower(text))
  }

  /** Without the Thai flag the tokens are the lower-cased text's fields, which rebuild it with the whitespace between them. */
  lemma TokenizeOfText(text: string, thai: bool, segment: Segmenter)
    ensures thai ==> Tokenize(text, thai, segment) == segment(Lower(text))
    ensures !thai ==>
              && (forall i :: 0 <= i < |Tokenize(text, thai, segment)| ==> IsWord(Tokenize(text, thai, segment)[i]))
              && Concat(Tokenize(text, thai, segment)) == NonSpace(Lower(text))
              && Interleave(Gaps(Lower(text)), Tokenize(text, thai, segment)) == Lower(text)
  {
    FieldsKeepNonSpace(Lower(text));
    FieldsSplit(Lower(text));
  }

  /** matchCount*2 / (len(queryWords)+len(questionWords)), from the two token lists. */
  function ListScore(queryWords: seq<string>, questionWords: seq<string>): (r: Ratio)
    ensures r.num <= 2 * |questionWords|
    ensures r.den == 0 ==> r.num == 0
  {
    Ratio(2 * CountIn(questionWords, Elems(queryWords)), |queryWords| + |questionWords|)
  }

  /** The score of one question: both texts are tokenized the way the query's script calls for. */
  function QaScore(query: string, question: string, segment: Segmenter): (r: Ratio)
    ensures r.den == 0 ==> r.num == 0
  {
    var thai := ContainsThai(query);
    ListScore(Tokenize(query, thai, segment), Tokenize(question, thai, segment))
  }

  /** The distinct tokens of a list number at most its length. */
  lemma {:induction false} ElemsSize(ws: seq<string>)
    ensures |Elems(ws)| <= |ws|
    decreases |ws|
  {
    if ws != [] {
      var init := ws[..|ws| - 1];
      assert Elems(ws) == Elems(init) + {ws[|ws| - 1]};
      ElemsSize(init);
    }
  }

  /** In a list without repetitions, the last token is not among the others, and the others repeat nothing. */
  lemma LastIsNew(ws: seq<string>)
    requires ws != [] && NoRepeats(ws)
    ensures ws[|ws| - 1] !in Elems(ws[..|ws| - 1])
    ensures NoRepeats(ws[..|ws| - 1])
  {
    var init := ws[..|ws| - 1];
    forall k | 0 <= k < |init|
      ensures init[k] != ws[|ws| - 1]
    {
      assert init[k] == ws[k];
    }
  }

  /** A list without repetitions has exactly as many distinct tokens as entries. */
  lemma {:induction false} NoRepeatsSize(ws: seq<string>)
    requires NoRepeats(ws)
    ensures |Elems(ws)| == |ws|
    decreases |ws|
  {
    if ws != [] {
      var init := ws[..|ws| - 1];
      var last := ws[|ws| - 1];
      assert Elems(ws) == Elems(init) + {last};
      LastIsNew(ws);
      NoRepeatsSize(init);
    }
  }

  /** Without repetitions, the match count is the size of the overlap. */
  lemma {:induction false} CountInNoRepeats(ws: seq<string>, u: set<string>)
    requires NoRepeats(ws)
    ensures CountIn(ws, u) == |Elems(ws) * u|
    decreases |ws|
  {
    if ws != [] {
      var init := ws[..|ws| - 1];
      var last := ws[|ws| - 1];
      LastIsNew(ws);
      if last in u {
        assert Elems(ws) * u == Elems(init) * u + {last};
      } else {
        assert Elems(ws) * u == Elems(init) * u;
      }
      CountInNoRepeats(init, u);
    }
  }

  /** Neither list repeating a token, the list score is the Dice coefficient of the token sets. */
  lemma ListScoreIsDice(queryWords: seq<string>, questionWords: seq<string>)
    requires NoRepeats(queryWords) && NoRepeats(questionWords)
    ensures ListScore(queryWords, questionWords) == Dice(Elems(queryWords), Elems(questionWords))
  {
    CountInNoRepeats(questionWords, Elems(queryWords));
    NoRepeatsSize(queryWords);
    NoRepeatsSize(questionWords);
    assert Elems(questionWords) * Elems(queryWords) == Elems(queryWords) * Elems(questionWords);
  }

  /**
   * When the question repeats no token, the score lies in [0, 1]: a
   * passing question then has a confidence between 0.55 and 1.
   */
  lemma ListScoreBounded(queryWords: seq<string>, questionWords: seq<string>)
    requires NoRepeats(questionWords)
    ensures ListScore(queryWords, questionWords).num <= ListScore(queryWords, questionWords).den
  {
    CountInNoRepeats(questionWords, Elems(queryWords));
    IntersectionSmaller(Elems(questionWords), Elems(queryWords));
    ElemsSize(queryWords);
  }

  /** A question token that repeats can push the score above 1: query "a", question "a a a" scores 6/4. */
  lemma RepeatsExceedOne()
    ensures ListScore(["a"], ["a", "a", "a"]) == Ratio(6, 4)
    ensures Passes(Ratio(6, 4)) && Hundredths(Ratio(6, 4)) == 150
  {
    var q: seq<string> := ["a"];
    var c: seq<string> := ["a", "a", "a"];
    assert Elems(q) == {"a"};
    assert c[..2][..1] == ["a"] && c[..2] == ["a", "a"] && c[..1] == ["a"];
    assert CountIn(c, Elems(q)) == 3;
  }

  /**
   * When query and question agree on whether they hold Thai script and
   * neither token list repeats, the score is the Dice score of the two
   * texts' own token sets.
   */
  lemma QaScoreIsDice(query: string, question: string, segment: Segmenter)
    requires ContainsThai(query) == ContainsThai(question)
    requires NoRepeats(Tokens(query, segment)) && NoRepeats(Tokens(question, segment))
    ensures QaScore(query, question, segment) == Dice(Elems(Tokens(query, segment)), Elems(Tokens(question, segment)))
  {
    ListScoreIsDice(Tokens(query, segment), Tokens(question, segment));
  }

  /** The two loops of one scoring goroutine: the query's word set, then the count of question tokens in it. */
  method MatchCount(queryWords: seq<string>, questionWords: seq<string>) returns (matchCount: nat)
    ensures matchCount == CountIn(questionWords, Elems(queryWords))
  {
    var wordMap: map<string, bool> := map[];
    for i := 0 to |queryWords|
      invariant wordMap.Keys == Elems(queryWords[..i])
      invariant forall w :: w in wordMap ==> wordMap[w]
    {
      assert queryWords[..i + 1] == queryWords[..i] + [queryWords[i]];
      wordMap := wordMap[queryWords[i] := true];
    }
    assert queryWords[..|queryWords|] == queryWords;
    matchCount := 0;
    for j := 0 to |questionWords|
      invariant matchCount == CountIn(questionWords[..j], Elems(queryWords))
    {
      assert questionWords[..j + 1][..j] == questionWords[..j];
      if questionWords[j] in wordMap && wordMap[questionWords[j]] {
        matchCount := matchCount + 1;
      }
    }
    assert questionWords[..|questionWords|] == questionWords;
  }

  /** The body of one scoring goroutine. */
  method ScoreQuestion(query: string, question: string, segment: Segmenter) returns (similarity: Ratio)
    ensures similarity == QaScore(query, question, segment)
  {
    var queryWords, questionWords;
    if ContainsThai(query) {
      queryWords := segment(Lower(query));
      questionWords := segment(Lower(question));
    } else {
      queryWords := Fields(Lower(query));
      questionWords := Fields(Lower(question));
    }
    var matchCount := MatchCount(queryWords, questionWords);
    similarity := Ratio(matchCount * 2, |queryWords| + |questionWords|);
  }

  /** The score of every question in qs against the query. */
  ghost function ScoresOf(query: string, qs: set<string>, segment: Segmenter): (m: map<string, Ratio>)
    ensures m.Keys == qs
  {
    map q | q in qs :: QaScore(query, q, segment)
  }

  /** calculateSimilarityParallel, with the goroutines run one after another: each question's score under its own key. */
  method CalculateSimilarityParallel(query: string, questions: seq<string>, segment: Segmenter)
    returns (results: map<string, Ratio>)
    ensures results == ScoresOf(query, Elems(questions), segment)
  {
    results := map[];
    for i := 0 to |questions|
      invariant results == ScoresOf(query, Elems(questions[..i]), segment)
    {
      assert questions[..i + 1] == questions[..i] + [questions[i]];
      var similarity := ScoreQuestion(query, questions[i], segment);
      results := results[questions[i] := similarity];
    }
    assert questions[..|questions|] == questions;
  }

  // ---------------------------------------------------------------
  // Search
  // ---------------------------------------------------------------

  /** r is the record searchWithConfidence builds for question q of qs with the passing score `score`. */
  ghost predicate ResultOf(r: AnswerResult, q: string, qs: map<string, string>, score: Ratio, now: Timestamp)
  {
    && q in qs
    && score.den > 0
    && Passes(score)
    && r == AnswerResult(qs[q], Confidence(score), now)
  }

  /**
   * results holds one record for each question whose score passes 0.55,
   * in no particular order (Go map iteration); matched names each
   * record's question.
   */
  ghost predicate Filtered(results: seq<AnswerResult>, matched: seq<string>, qs: map<string, string>,
                           scores: map<string, Ratio>, now: Timestamp)
  {
    && |results| == |matched|
    && (forall i, j :: 0 <= i < j < |matched| ==> matched[i] != matched[j])
    && (forall q :: q in matched <==> q in scores && Passes(scores[q]))
    && (forall i :: 0 <= i < |results| ==>
          matched[i] in scores && ResultOf(results[i], matched[i], qs, scores[matched[i]], now))
  }

  /** What searchWithConfidence returns for the question map qs. */
  ghost predicate SearchResults(results: seq<AnswerResult>, matched: seq<string>, qs: map<string, string>,
                                query: string, segment: Segmenter, now: Timestamp)
  {
    Filtered(results, matched, qs, ScoresOf(query, qs.Keys, segment), now)
  }

  /** A question is among the search results exactly when it is in qs and its score passes the threshold. */
  lemma SearchResultsExactlyPassing(results: seq<AnswerResult>, matched: seq<string>, qs: map<string, string>,
                                    query: string, segment: Segmenter, now: Timestamp)
    requires SearchResults(results, matched, qs, query, segment, now)
    ensures forall q :: q in matched <==> q in qs && Passes(QaScore(query, q, segment))
    ensures |results| <= |qs|
  {
    var scores := ScoresOf(query, qs.Keys, segment);
    forall q
      ensures q in matched <==> q in qs && Passes(QaScore(query, q, segment))
    {
      if q in qs {
        assert scores[q] == QaScore(query, q, segment);
      }
    }
    QuestionTable.DistinctWithin(matched, qs.Keys);
  }

  /**
   * Every search result carries the answer of a question of qs, the given
   * time, and a confidence of at least 0.55; at most 1 as well when that
   * question's tokens do not repeat.
   */
  lemma SearchResultsConfident(results: seq<AnswerResult>, matched: seq<string>, qs: map<string, string>,
                               query: string, segment: Segmenter, now: Timestamp)
    requires SearchResults(results, matched, qs, query, segment, now)
    ensures forall i :: 0 <= i < |results| ==>
              && matched[i] in qs && results[i].answer == qs[matched[i]]
              && results[i].timestamp == now
              && 0.55 <= results[i].confidence
    ensures forall i :: 0 <= i < |results| && NoRepeats(Tokenize(matched[i], ContainsThai(query), segment)) ==>
              results[i].confidence <= 1.0
  {
    var scores := ScoresOf(query, qs.Keys, segment);
    forall i | 0 <= i < |results|
      ensures 0.55 <= results[i].confidence
      ensures NoRepeats(Tokenize(matched[i], ContainsThai(query), segment)) ==> results[i].confidence <= 1.0
    {
      var q := matched[i];
      PassingConfidenceFloor(scores[q]);
      if NoRepeats(Tokenize(q, ContainsThai(query), segment)) {
        ListScoreBounded(Tokenize(query, ContainsThai(query), segment), Tokenize(q, ContainsThai(query), segment));
        PassingConfidence(scores[q]);
      }
    }
  }

  /** The filter loop of searchWithConfidence: keep scores above 0.55, rounded to hundredths. */
  method FilterPassing(similarities: map<string, Ratio>, questionAnswerMap: map<string, string>, now: Timestamp)
    returns (results: seq<AnswerResult>, ghost matched: seq<string>)
    requires similarities.Keys <= questionAnswerMap.Keys
    requires forall q :: q in similarities && similarities[q].den == 0 ==> similarities[q].num == 0
    ensures Filtered(results, matched, questionAnswerMap, similarities, now)
  {
    results := [];
    matched := [];
    var pending := similarities.Keys;
    while pending != {}
      invariant pending <= similarities.Keys
      invariant |results| == |matched|
      invariant forall i, j :: 0 <= i < j < |matched| ==> matched[i] != matched[j]
      invariant forall q :: q in matched <==> q in similarities && q !in pending && Passes(similarities[q])
      invariant forall i :: 0 <= i < |results| ==>
                  matched[i] in similarities && ResultOf(results[i], matched[i], questionAnswerMap, similarities[matched[i]], now)
      decreases pending
    {
      var question :| question in pending;
      var similarity := similarities[question];
      if Passes(similarity) {
        var roundedConfidence := Confidence(similarity);
        results := results + [AnswerResult(questionAnswerMap[question], roundedConfidence, now)];
        matched := matched + [question];
      }
      pending := pending - {question};
    }
  }

  /**
   * perSource[k] and matched[k] are what searchWithConfidence returns for
   * the k-th question map; stated for the last map and, recursively, for
   * the ones before it.
   */
  ghost predicate AllSearchResults(perSource: seq<seq<AnswerResult>>, matched: seq<seq<string>>, tables: seq<map<string, string>>,
                                   query: string, segment: Segmenter, now: Timestamp)
    decreases |tables|
  {
    && |perSource| == |matched| == |tables|
    && (|tables| > 0 ==>
          && AllSearchResults(perSource[..|tables| - 1], matched[..|tables| - 1], tables[..|tables| - 1], query, segment, now)
          && SearchResults(perSource[|tables| - 1], matched[|tables| - 1], tables[|tables| - 1], query, segment, now))
  }

  /** Each source's entry of AllSearchResults. */
  lemma {:induction false} SearchResultsAt(perSource: seq<seq<AnswerResult>>, matched: seq<seq<string>>, tables: seq<map<string, string>>,
                                           query: string, segment: Segmenter, now: Timestamp, k: nat)
    requires AllSearchResults(perSource, matched, tables, query, segment, now)
    requires k < |tables|
    ensures SearchResults(perSource[k], matched[k], tables[k], query, segment, now)
  {
    var n := |tables| - 1;
    if k < n {
      SearchResultsAt(perSource[..n], matched[..n], tables[..n], query, segment, now, k);
      assert perSource[..n][k] == perSource[k] && matched[..n][k] == matched[k] && tables[..n][k] == tables[k];
    } else {
      assert k == n;
    }
  }

  /** One more source's search results extend the list. */
  lemma ExtendResults(perSource: seq<seq<AnswerResult>>, matched: seq<seq<string>>, tables: seq<map<string, string>>,
                      results: seq<AnswerResult>, found: seq<string>, table: map<string, string>,
                      query: string, segment: Segmenter, now: Timestamp)
    requires AllSearchResults(perSource, matched, tables, query, segment, now)
    requires SearchResults(results, found, table, query, segment, now)
    ensures AllSearchResults(perSource + [results], matched + [found], tables + [table], query, segment, now)
  {
    assert (perSource + [results])[..|perSource|] == perSource;
    assert (matched + [found])[..|matched|] == matched;
    assert (tables + [table])[..|tables|] == tables;
  }

  /** The results for the first i maps followed by those for map i. */
  lemma NextResults(perSource: seq<seq<AnswerResult>>, matched: seq<seq<string>>, tables: seq<map<string, string>>, i: nat,
                    results: seq<AnswerResult>, found: seq<string>, query: string, segment: Segmenter, now: Timestamp)
    requires i < |tables|
    requires AllSearchResults(perSource, matched, tables[..i], query, segment, now)
    requires SearchResults(results, found, tables[i], query, segment, now)
    ensures AllSearchResults(perSource + [results], matched + [found], tables[..i + 1], query, segment, now)
  {
    assert tables[..i + 1] == tables[..i] + [tables[i]];
    ExtendResults(perSource, matched, tables[..i], results, found, tables[i], query, segment, now);
  }

  /** The pool FindBestAnswer ranks is exactly the passing questions of all sources, each with its own source's answer. */
  lemma {:induction false} PoolIsPassing(perSource: seq<seq<AnswerResult>>, matched: seq<seq<string>>, tables: seq<map<string, string>>,
                                         query: string, segment: Segmenter, now: Timestamp)
    requires AllSearchResults(perSource, matched, tables, query, segment, now)
    ensures |Ranking.Flatten(perSource)| == Sum(matched)
    ensures forall r :: r in Ranking.Flatten(perSource) ==> 0.55 <= r.confidence && r.timestamp == now
    decreases |tables|
  {
    if |tables| > 0 {
      var n := |tables| - 1;
      PoolIsPassing(perSource[..n], matched[..n], tables[..n], query, segment, now);
      SearchResultsConfident(perSource[n], matched[n], tables[n], query, segment, now);
      forall r | r in perSource[n]
        ensures 0.55 <= r.confidence && r.timestamp == now
      {
        var i :| 0 <= i < |perSource[n]| && perSource[n][i] == r;
      }
    }
  }

  /** The total length of the lists. */
  function Sum(ms: seq<seq<string>>): nat
  {
    if ms == [] then 0 else Sum(ms[..|ms| - 1]) + |ms[|ms| - 1]|
  }

  class QAService {
    var sources: seq<QuestionSource.Source>
    /** The configured maximum number of answers. */
    const maxAnswers: int

    constructor (maxAnswers: int)
      ensures sources == [] && this.maxAnswers == maxAnswers
    {
      sources := [];
      this.maxAnswers := maxAnswers;
    }

    method AddSource(source: QuestionSource.Source)
      modifies this
      ensures sources == old(sources) + [source]
    {
      sources := sources + [source];
    }

    /** searchWithConfidence: score every question of the source against the query and keep the passing ones. */
    method SearchWithConfidence(source: QuestionSource.Source, query: string, segment: Segmenter, now: Timestamp)
      returns (results: seq<AnswerResult>, ghost matched: seq<string>)
      ensures SearchResults(results, matched, QuestionSource.GetQuestions(source), query, segment, now)
    {
      var table := QuestionSource.GetQuestions(source);
      var questions, questionAnswerMap := QuestionTable.CollectQuestions(table);
      assert Elems(questions) == table.Keys;
      var similarities := CalculateSimilarityParallel(query, questions, segment);
      results, matched := FilterPassing(similarities, questionAnswerMap, now);
    }

    /**
     * FindBestAnswer: every source's passing questions in source order,
     * ranked by confidence and cut to maxAnswers; NotFound when nothing is
     * left. A negative maxAnswers would make the slice expression panic.
     */
    method FindBestAnswer(query: string, segment: Segmenter, now: Timestamp)
      returns (r: Result<seq<AnswerResult>, string>, ghost perSource: seq<seq<AnswerResult>>, ghost matched: seq<seq<string>>)
      requires maxAnswers >= 0
      ensures AllSearchResults(perSource, matched, QuestionSource.Tables(sources), query, segment, now)
      ensures r.Failure? <==> Ranking.Flatten(perSource) == [] || maxAnswers == 0
      ensures r.Failure? ==> r.error == NotFound
      ensures r.Success? ==> Ranking.KeepsBest(r.value, Ranking.Flatten(perSource), maxAnswers, ConfidenceOf)
    {
      var allAnswers;
      allAnswers, perSource, matched := SearchAll(query, segment, now);
      Ranking.SortThenCut(allAnswers, maxAnswers, ConfidenceOf);
      allAnswers := Ranking.SortDesc(allAnswers, ConfidenceOf);
      if |allAnswers| > maxAnswers {
        allAnswers := allAnswers[..maxAnswers];
      }
      if |allAnswers| == 0 {
        return Failure(NotFound), perSource, matched;
      }
      r := Success(allAnswers);
    }

    /** The loop of FindBestAnswer: every source's search results, concatenated in source order. */
    method SearchAll(query: string, segment: Segmenter, now: Timestamp)
      returns (answers: seq<AnswerResult>, ghost perSource: seq<seq<AnswerResult>>, ghost matched: seq<seq<string>>)
      ensures AllSearchResults(perSource, matched, QuestionSource.Tables(sources), query, segment, now)
      ensures answers == Ranking.Flatten(perSource)
    {
      ghost var tables := QuestionSource.Tables(sources);
      answers, perSource, matched := SearchEach(this, sources, tables, query, segment, now);
      assert sources == old(sources);
      QuestionSource.TablesUnchanged(sources);
    }

    /**
     * LoadAllSources: load the sources in order, stopping at and returning
     * the first error. A handler added twice is loaded twice, which leaves
     * its map as one load does.
     */
    method LoadAllSources(env: Env) returns (err: Option<LoadError>)
      modifies QuestionSource.Objs(sources)
      ensures var n := QuestionSource.LoadedCount(sources, env);
              err == if n < |sources| then QuestionSource.Reported(sources[n], env) else None
      ensures var n := QuestionSource.LoadedCount(sources, env);
              QuestionSource.LoadedOnce(QuestionSource.Tables(sources), sources, if n < |sources| then n + 1 else n,
                                        old(QuestionSource.Tables(sources)), env)
    {
      ServiceIsNoSource(sources, this);
      err := LoadInOrder(sources, env);
    }
  }

  /** The loop of SearchAll over a given list of sources, whose maps are `tables`. */
  method SearchEach(svc: QAService, srcs: seq<QuestionSource.Source>, ghost tables: seq<map<string, string>>,
                    query: string, segment: Segmenter, now: Timestamp)
    returns (answers: seq<AnswerResult>, ghost perSource: seq<seq<AnswerResult>>, ghost matched: seq<seq<string>>)
    requires |srcs| == |tables|
    requires forall k :: 0 <= k < |srcs| ==> QuestionSource.GetQuestions(srcs[k]) == tables[k]
    ensures AllSearchResults(perSource, matched, tables, query, segment, now)
    ensures answers == Ranking.Flatten(perSource)
  {
    perSource, matched := [], [];
    answers := [];
    for i := 0 to |srcs|
      invariant AllSearchResults(perSource, matched, tables[..i], query, segment, now)
      invariant answers == Ranking.Flatten(perSource)
    {
      var results, found := SearchNext(svc, srcs[i], i, tables, perSource, matched, query, segment, now);
      Ranking.FlattenOneMore(perSource, results);
      answers := answers + results;
      perSource, matched := perSource + [results], matched + [found];
    }
    assert tables[..|srcs|] == tables;
  }

  /** One iteration of SearchAll: source i's search results extend those of the sources before it. */
  method SearchNext(svc: QAService, source: QuestionSource.Source, i: nat, ghost tables: seq<map<string, string>>,
                    ghost perSource: seq<seq<AnswerResult>>, ghost matched: seq<seq<string>>,
                    query: string, segment: Segmenter, now: Timestamp)
    returns (results: seq<AnswerResult>, ghost found: seq<string>)
    requires i < |tables|
    requires QuestionSource.GetQuestions(source) == tables[i]
    requires AllSearchResults(perSource, matched, tables[..i], query, segment, now)
    ensures AllSearchResults(perSource + [results], matched + [found], tables[..i + 1], query, segment, now)
  {
    results, found := svc.SearchWithConfidence(source, query, segment, now);
    NextResults(perSource, matched, tables, i, results, found, query, segment, now);
  }

  /** LoadAllSources over a given list of sources. */
  method LoadInOrder(srcs: seq<QuestionSource.Source>, env: Env) returns (err: Option<LoadError>)
    modifies QuestionSource.Objs(srcs)
    ensures var n := QuestionSource.LoadedCount(srcs, env);
            err == if n < |srcs| then QuestionSource.Reported(srcs[n], env) else None
    ensures var n := QuestionSource.LoadedCount(srcs, env);
            QuestionSource.LoadedOnce(QuestionSource.Tables(srcs), srcs, if n < |srcs| then n + 1 else n,
                                      old(QuestionSource.Tables(srcs)), env)
  {
    ghost var initial := QuestionSource.Tables(srcs);
    ghost var target := QuestionSource.LoadTargets(srcs, initial, env);
    var i;
    err, i := LoadUntilError(srcs, initial, target, env);
    QuestionSource.LoadsFinished(QuestionSource.Tables(srcs), srcs, i, initial, target, env);
  }

  /**
   * The sources from the first on, each loaded, up to and including the
   * first that reports an error; i is the count of sources loaded without
   * an error.
   */
  method LoadUntilError(srcs: seq<QuestionSource.Source>, ghost initial: seq<map<string, string>>,
                        ghost target: seq<map<string, string>>, env: Env)
    returns (err: Option<LoadError>, i: nat)
    requires QuestionSource.Targets(srcs, initial, target, env)
    requires QuestionSource.LoadedUpTo(QuestionSource.Tables(srcs), srcs, 0, initial, target)
    modifies QuestionSource.Objs(srcs)
    ensures i <= |srcs|
    ensures QuestionSource.LoadsCleanly(srcs, i, env)
    ensures err == if i < |srcs| then QuestionSource.Reported(srcs[i], env) else None
    ensures i < |srcs| ==> err.Some?
    ensures QuestionSource.LoadedUpTo(QuestionSource.Tables(srcs), srcs, if i < |srcs| then i + 1 else i, initial, target)
  {
    err := None;
    i := 0;
    while i < |srcs|
      invariant 0 <= i <= |srcs|
      invariant QuestionSource.LoadsCleanly(srcs, i, env)
      invariant QuestionSource.LoadedUpTo(QuestionSource.Tables(srcs), srcs, i, initial, target)
      invariant err == None
    {
      err := QuestionSource.LoadOne(srcs, i, initial, target, env);
      if err.Some? {
        return;
      }
      QuestionSource.CleanOneMore(srcs, i, env);
      i := i + 1;
    }
  }

  /** The service object is not one of its sources. */
  lemma ServiceIsNoSource(srcs: seq<QuestionSource.Source>, svc: QAService)
    ensures svc !in QuestionSource.Objs(srcs)
  {
  }
}
