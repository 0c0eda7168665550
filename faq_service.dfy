/**
 * services/faq_service.go: the matching engine. Token sets over the shared
 * word catalog, Dice scoring of every question of every source, the 0.55
 * threshold, ranking and truncation, the result cache in front of it, and
 * source loading that seeds the cache.
 */
module FaqService {
  import opened Wrappers
  import opened Json
  import opened Text
  import opened WordIds
  import opened Similarity
  import opened World
  import QuestionSource
  import QuestionTable
  import Ranking
  import ResultCache

  /** The zero time.Time, which json.Unmarshal leaves in place of a missing timestamp. */
  const ZeroTime: Timestamp := "0001-01-01T00:00:00Z"

  /** The error FindBestAnswer returns when no candidate passes. */
  const NotFound := "no matching answers found"

  datatype AnswerResult = AnswerResult(
    query: string,
    matchQuestion: string,
    answer: string,
    confidence: real,
    timestamp: Timestamp)

  const ZeroResult := AnswerResult("", "", "", 0.0, ZeroTime)

  /** The sort key. */
  function ConfidenceOf(r: AnswerResult): real
  {
    r.confidence
  }

  // ---------------------------------------------------------------------
  // JSON form of a result list, with the struct's json tags.

  function EncodeResult(r: AnswerResult): (v: Json)
    ensures v.JObj?
    ensures v.fields.Keys == {"query", "match_question", "answer", "confidence", "timestamp"}
    ensures forall k :: k in v.fields && k != "confidence" ==> v.fields[k].JStr?
    ensures v.fields["confidence"].JNum?
  {
    JObj(map[
      "query" := JStr(r.query),
      "match_question" := JStr(r.matchQuestion),
      "answer" := JStr(r.answer),
      "confidence" := JNum(r.confidence),
      "timestamp" := JStr(r.timestamp)])
  }

  function EncodeItems(rs: seq<AnswerResult>): (items: seq<Json>)
    ensures |items| == |rs|
    ensures forall i :: 0 <= i < |rs| ==> items[i] == EncodeResult(rs[i])
  {
    if rs == [] then [] else [EncodeResult(rs[0])] + EncodeItems(rs[1..])
  }

  /** json.Marshal of a []AnswerResult. */
  function EncodeResults(rs: seq<AnswerResult>): (v: Json)
    ensures v.JArr? && |v.items| == |rs|
    ensures forall i :: 0 <= i < |rs| ==> v.items[i] == EncodeResult(rs[i])
  {
    JArr(EncodeItems(rs))
  }

  /**
   * What json.Unmarshal leaves in the []AnswerResult and whether it
   * returned nil. On a type mismatch inside the array Go still fills the
   * slice, leaving the mismatched parts zero.
   */
  datatype Decoded = Decoded(results: seq<AnswerResult>, ok: bool)

  /** A string field: absent or null leaves "", a non-string is a type error. */
  function StringField(fields: map<string, Json>, name: string, zero: string): (string, bool)
  {
    if name !in fields then (zero, true)
    else match fields[name]
      case JNull => (zero, true)
      case JStr(s) => (s, true)
      case _ => (zero, false)
  }

  function NumberField(fields: map<string, Json>, name: string): (real, bool)
  {
    if name !in fields then (0.0, true)
    else match fields[name]
      case JNull => (0.0, true)
      case JNum(n) => (n, true)
      case _ => (0.0, false)
  }

  function DecodeResult(v: Json): (AnswerResult, bool)
  {
    match v
    case JNull => (ZeroResult, true)
    case JObj(f) =>
      var q := StringField(f, "query", "");
      var m := StringField(f, "match_question", "");
      var a := StringField(f, "answer", "");
      var c := NumberField(f, "confidence");
      var t := StringField(f, "timestamp", ZeroTime);
      (AnswerResult(q.0, m.0, a.0, c.0, t.0), q.1 && m.1 && a.1 && c.1 && t.1)
    case _ => (ZeroResult, false)
  }

  function DecodeItems(items: seq<Json>): (d: Decoded)
    ensures |d.results| == |items|
    ensures forall i :: 0 <= i < |items| ==> d.results[i] == DecodeResult(items[i]).0
    ensures d.ok <==> forall i :: 0 <= i < |items| ==> DecodeResult(items[i]).1
  {
    if items == [] then Decoded([], true)
    else
      var first := DecodeResult(items[0]);
      var rest := DecodeItems(items[1..]);
      Decoded([first.0] + rest.results, first.1 && rest.ok)
  }

  /** json.Unmarshal into a nil []AnswerResult: null gives nil, any other non-array is a type error. */
  function Decode(v: Json): (d: Decoded)
    ensures d.ok ==> v.JNull? || v.JArr?
    ensures v.JNull? ==> d.ok && d.results == []
    ensures !v.JArr? ==> d.results == []
    ensures v.JArr? ==> |d.results| == |v.items|
    ensures v.JArr? ==> (d.ok <==> forall i :: 0 <= i < |v.items| ==> DecodeResult(v.items[i]).1)
  {
    match v
    case JNull => Decoded([], true)
    case JArr(items) => DecodeItems(items)
    case _ => Decoded([], false)
  }

  /** A result list survives the cache's serialization exactly. */
  lemma {:induction false} DecodeEncode(rs: seq<AnswerResult>)
    ensures Decode(EncodeResults(rs)) == Decoded(rs, true)
  {
    DecodeEncodeItems(rs);
  }

  /** One record survives its JSON object form: every field is present with the right type. */
  lemma DecodeEncodeResult(r: AnswerResult)
    ensures DecodeResult(EncodeResult(r)) == (r, true)
  {
  }

  lemma DecodeEncodeItems(rs: seq<AnswerResult>)
    ensures DecodeItems(EncodeItems(rs)) == Decoded(rs, true)
  {
    var items := EncodeItems(rs);
    forall i | 0 <= i < |rs|
      ensures DecodeResult(items[i]) == (rs[i], true)
    {
      DecodeEncodeResult(rs[i]);
    }
    assert DecodeItems(items).results == rs;
  }

  /** The value LoadAllSources stores for a question, json.Marshal(answer), is not a result list. */
  lemma SeededValueFallsThrough(answer: string)
    ensures Decode(JStr(answer)) == Decoded([], false)
  {
  }

  // ---------------------------------------------------------------------
  // Scoring.

  /** Every word of the list has an ID. */
  ghost predicate Known(ids: map<string, nat>, words: seq<string>)
  {
    forall w :: w in words ==> w in ids
  }

  /**
   * The score calculateSimilarityParallel stores: Dice over the two ID
   * sets, each text tokenized by its own Thai test.
   */
  function IdScore(ids: map<string, nat>, query: string, question: string, segment: Segmenter): (r: Ratio)
    ensures r.num <= r.den
  {
    var a := IdSet(ids, Tokens(query, segment));
    var b := IdSet(ids, Tokens(question, segment));
    DiceBounded(a, b);
    Dice(a, b)
  }

  /** The catalog-free score: Dice over the two texts' sets of distinct tokens. */
  function WordScore(query: string, question: string, segment: Segmenter): Ratio
  {
    Dice(Elems(Tokens(query, segment)), Elems(Tokens(question, segment)))
  }

  /** While the catalog is injective, the ID-set score is the Dice coefficient of the token sets. */
  lemma IdScoreIsWordScore(ids: map<string, nat>, query: string, question: string, segment: Segmenter)
    requires Injective(ids)
    requires Known(ids, Tokens(query, segment)) && Known(ids, Tokens(question, segment))
    ensures IdScore(ids, query, question, segment) == WordScore(query, question, segment)
  {
    IdSetsMirrorWordSets(ids, Tokens(query, segment), Tokens(question, segment));
  }

  /** The score is symmetric in query and question. */
  lemma ScoreSymmetric(ids: map<string, nat>, query: string, question: string, segment: Segmenter)
    ensures IdScore(ids, query, question, segment) == IdScore(ids, question, query, segment)
    ensures WordScore(query, question, segment) == WordScore(question, query, segment)
  {
    DiceSymmetric(IdSet(ids, Tokens(query, segment)), IdSet(ids, Tokens(question, segment)));
    DiceSymmetric(Elems(Tokens(query, segment)), Elems(Tokens(question, segment)));
  }

  /** A score does not change when the catalog only gains words. */
  lemma IdScoreStable(later: map<string, nat>, earlier: map<string, nat>, query: string, question: string, segment: Segmenter)
    requires Extends(later, earlier)
    requires Known(earlier, Tokens(query, segment)) && Known(earlier, Tokens(question, segment))
    ensures IdScore(later, query, question, segment) == IdScore(earlier, query, question, segment)
  {
    IdSetStable(later, earlier, Tokens(query, segment));
    IdSetStable(later, earlier, Tokens(question, segment));
  }

  /**
   * Until the counter wraps, the score does not depend on the order in which
   * words got their IDs: any two numbered catalogs that know the tokens agree.
   */
  lemma IdScoreOrderFree(a: map<string, nat>, ca: nat, b: map<string, nat>, cb: nat, query: string, question: string, segment: Segmenter)
    requires Numbered(a, ca) && |a| < IdSpace
    requires Numbered(b, cb) && |b| < IdSpace
    requires Known(a, Tokens(query, segment)) && Known(a, Tokens(question, segment))
    requires Known(b, Tokens(query, segment)) && Known(b, Tokens(question, segment))
    ensures IdScore(a, query, question, segment) == IdScore(b, query, question, segment)
  {
    IdScoreIsWordScore(a, query, question, segment);
    IdScoreIsWordScore(b, query, question, segment);
  }

  /** Every entry of `scores` is the ID-set score of its question against the query. */
  ghost predicate ScoredAgainst(scores: map<string, Ratio>, ids: map<string, nat>, query: string, segment: Segmenter)
  {
    forall q :: q in scores ==> Known(ids, Tokens(q, segment)) && scores[q] == IdScore(ids, query, q, segment)
  }

  lemma ScoredAgainstStable(scores: map<string, Ratio>, later: map<string, nat>, earlier: map<string, nat>,
                            query: string, segment: Segmenter)
    requires Extends(later, earlier) && Known(earlier, Tokens(query, segment))
    requires ScoredAgainst(scores, earlier, query, segment)
    ensures ScoredAgainst(scores, later, query, segment)
  {
    forall q | q in scores
      ensures Known(later, Tokens(q, segment)) && scores[q] == IdScore(later, query, q, segment)
    {
      IdScoreStable(later, earlier, query, q, segment);
    }
  }

  /** The body of one scoring goroutine: the question's bitmap, the intersection count and the ratio. */
  method ScoreQuestion(catalog: WordCatalog, query: string, queryBitmap: set<nat>, question: string, segment: Segmenter)
    returns (similarity: Ratio)
    requires catalog.Valid()
    requires Known(catalog.ids, Tokens(query, segment)) && queryBitmap == IdSet(catalog.ids, Tokens(query, segment))
    modifies catalog
    ensures catalog.Valid() && Extends(catalog.ids, old(catalog.ids))
    ensures Known(catalog.ids, Tokens(question, segment))
    ensures forall w :: w in catalog.ids <==> w in old(catalog.ids) || w in Tokens(question, segment)
    ensures similarity == IdScore(catalog.ids, query, question, segment)
  {
    ghost var before := catalog.ids;
    var questionBitmap := CreateBitmapFromWords(catalog, Tokens(question, segment));
    IdSetStable(catalog.ids, before, Tokens(query, segment));
    var matchCount := |queryBitmap * questionBitmap|;
    var totalWords := |queryBitmap| + |questionBitmap|;
    similarity := Ratio(2 * matchCount, totalWords);
  }

  /** Every token of every question in qs: the words scoring those questions registers. */
  ghost function TokensOf(qs: set<string>, segment: Segmenter): set<string>
  {
    set q, w | q in qs && w in Tokens(q, segment) :: w
  }

  lemma TokensOfOneMore(qs: set<string>, q: string, segment: Segmenter)
    ensures TokensOf(qs + {q}, segment) == TokensOf(qs, segment) + Elems(Tokens(q, segment))
  {
  }

  /** The tokens of a list of questions depend only on which questions it lists. */
  lemma TokensOfListed(questions: seq<string>, table: map<string, string>, segment: Segmenter)
    requires forall q :: q in questions <==> q in table
    ensures TokensOf(Elems(questions), segment) == TokensOf(table.Keys, segment)
  {
    assert Elems(questions) == table.Keys;
  }

  lemma InPrefixOneMore(s: seq<string>, i: nat)
    requires i < |s|
    ensures forall q :: q in s[..i + 1] <==> q in s[..i] || q == s[i]
  {
    assert s[..i + 1] == s[..i] + [s[i]];
  }

  /** Scoring questions[i] after questions[..i] has registered the tokens of questions[..i + 1]. */
  lemma TokensOfPrefix(after: map<string, nat>, before: map<string, nat>, start: set<string>,
                       questions: seq<string>, i: nat, segment: Segmenter)
    requires i < |questions|
    requires before.Keys == start + TokensOf(Elems(questions[..i]), segment)
    requires forall w :: w in after <==> w in before || w in Tokens(questions[i], segment)
    ensures after.Keys == start + TokensOf(Elems(questions[..i + 1]), segment)
  {
    assert after.Keys == before.Keys + Elems(Tokens(questions[i], segment));
    assert questions[..i + 1] == questions[..i] + [questions[i]];
    assert Elems(questions[..i + 1]) == Elems(questions[..i]) + {questions[i]};
    TokensOfOneMore(Elems(questions[..i]), questions[i], segment);
  }

  /**
   * calculateSimilarityParallel: one score per question (the goroutines
   * run one after the other here), all in place before it returns.
   */
  method CalculateSimilarityParallel(catalog: WordCatalog, query: string, questions: seq<string>, segment: Segmenter)
    returns (results: map<string, Ratio>)
    requires catalog.Valid()
    modifies catalog
    ensures catalog.Valid() && Extends(catalog.ids, old(catalog.ids))
    ensures Known(catalog.ids, Tokens(query, segment))
    ensures catalog.ids.Keys == old(catalog.ids).Keys + Elems(Tokens(query, segment)) + TokensOf(Elems(questions), segment)
    ensures forall q :: q in results <==> q in questions
    ensures ScoredAgainst(results, catalog.ids, query, segment)
  {
    var queryBitmap := CreateBitmapFromWords(catalog, Tokens(query, segment));
    ghost var start := catalog.ids.Keys;
    results := map[];
    assert Elems(questions[..0]) == {};
    for i := 0 to |questions|
      invariant ScoredUpTo(catalog, old(catalog.ids), start, query, queryBitmap, questions, i, results, segment)
    {
      ghost var before := catalog.ids;
      results := ScoreNext(catalog, query, queryBitmap, questions, i, results, segment);
      ScoredOneMore(catalog, old(catalog.ids), start, before, query, queryBitmap, questions, i, results, segment);
    }
    ScoredEvery(catalog, old(catalog.ids), start, query, queryBitmap, questions, results, segment);
  }

  /** The state after scoring every question is what calculateSimilarityParallel promises. */
  lemma ScoredEvery(catalog: WordCatalog, e0: map<string, nat>, start: set<string>, query: string,
                    queryBitmap: set<nat>, questions: seq<string>, results: map<string, Ratio>, segment: Segmenter)
    requires ScoredUpTo(catalog, e0, start, query, queryBitmap, questions, |questions|, results, segment)
    ensures catalog.ids.Keys == start + TokensOf(Elems(questions), segment)
    ensures forall q :: q in results <==> q in questions
  {
    assert questions[..|questions|] == questions;
  }

  /**
   * The state after scoring questions[..i]: the catalog grew from e0 by
   * the words of those questions (start holds e0's words and the query's),
   * and results holds exactly their scores.
   */
  ghost predicate ScoredUpTo(catalog: WordCatalog, e0: map<string, nat>, start: set<string>, query: string,
                             queryBitmap: set<nat>, questions: seq<string>, i: nat, results: map<string, Ratio>,
                             segment: Segmenter)
    reads catalog
  {
    && i <= |questions|
    && catalog.Valid() && Extends(catalog.ids, e0)
    && Known(catalog.ids, Tokens(query, segment))
    && catalog.ids.Keys == start + TokensOf(Elems(questions[..i]), segment)
    && queryBitmap == IdSet(catalog.ids, Tokens(query, segment))
    && (forall q :: q in results <==> q in questions[..i])
    && ScoredAgainst(results, catalog.ids, query, segment)
  }

  /** Scoring questions[i] after questions[..i] leaves the state after questions[..i + 1]. */
  lemma ScoredOneMore(catalog: WordCatalog, e0: map<string, nat>, start: set<string>, before: map<string, nat>,
                      query: string, queryBitmap: set<nat>, questions: seq<string>, i: nat,
                      next: map<string, Ratio>, segment: Segmenter)
    requires i < |questions|
    requires catalog.Valid() && Extends(catalog.ids, before) && Extends(before, e0)
    requires Known(catalog.ids, Tokens(query, segment)) && queryBitmap == IdSet(catalog.ids, Tokens(query, segment))
    requires before.Keys == start + TokensOf(Elems(questions[..i]), segment)
    requires forall w :: w in catalog.ids <==> w in before || w in Tokens(questions[i], segment)
    requires forall q :: q in next <==> q in questions[..i + 1]
    requires ScoredAgainst(next, catalog.ids, query, segment)
    ensures ScoredUpTo(catalog, e0, start, query, queryBitmap, questions, i + 1, next, segment)
  {
    TokensOfPrefix(catalog.ids, before, start, questions, i, segment);
  }

  /** One goroutine of calculateSimilarityParallel: score questions[i] and add it to the scores of the questions before it. */
  method ScoreNext(catalog: WordCatalog, query: string, queryBitmap: set<nat>, questions: seq<string>, i: nat,
                   results: map<string, Ratio>, segment: Segmenter)
    returns (next: map<string, Ratio>)
    requires catalog.Valid() && i < |questions|
    requires Known(catalog.ids, Tokens(query, segment)) && queryBitmap == IdSet(catalog.ids, Tokens(query, segment))
    requires forall q :: q in results <==> q in questions[..i]
    requires ScoredAgainst(results, catalog.ids, query, segment)
    modifies catalog
    ensures catalog.Valid() && Extends(catalog.ids, old(catalog.ids))
    ensures Known(catalog.ids, Tokens(query, segment)) && queryBitmap == IdSet(catalog.ids, Tokens(query, segment))
    ensures forall w :: w in catalog.ids <==> w in old(catalog.ids) || w in Tokens(questions[i], segment)
    ensures forall q :: q in next <==> q in questions[..i + 1]
    ensures ScoredAgainst(next, catalog.ids, query, segment)
  {
    InPrefixOneMore(questions, i);
    ghost var before := catalog.ids;
    var similarity := ScoreQuestion(catalog, query, queryBitmap, questions[i], segment);
    IdSetStable(catalog.ids, before, Tokens(query, segment));
    ScoredAgainstStable(results, catalog.ids, before, query, segment);
    next := results[questions[i] := similarity];
  }

  // ---------------------------------------------------------------------
  // Threshold, results, ranking.

  /** The score of every question in qs against the query, as calculateSimilarityParallel computes it. */
  ghost function ScoresOf(ids: map<string, nat>, query: string, qs: set<string>, segment: Segmenter): (m: map<string, Ratio>)
    ensures m.Keys == qs
  {
    map q | q in qs :: IdScore(ids, query, q, segment)
  }

  /** Every score lies in [0, 1] (or is 0/0). */
  ghost predicate Bounded(scores: map<string, Ratio>)
  {
    forall q :: q in scores ==> scores[q].num <= scores[q].den
  }

  /** A map scored against the catalog is exactly ScoresOf its keys, so its scores are bounded. */
  lemma ScoredAgainstIsScoresOf(scores: map<string, Ratio>, ids: map<string, nat>, query: string, segment: Segmenter)
    requires ScoredAgainst(scores, ids, query, segment)
    ensures scores == ScoresOf(ids, query, scores.Keys, segment)
    ensures Bounded(scores)
  {
  }

  /** r is the record searchWithConfidence builds for question q of qs with the passing score `score`. */
  ghost predicate ResultOf(r: AnswerResult, q: string, qs: map<string, string>, score: Ratio, query: string, now: Timestamp)
  {
    && q in qs
    && score.num <= score.den
    && Passes(score)
    && r == AnswerResult(query, q, qs[q], Confidence(score), now)
  }

  /**
   * results keeps exactly the questions whose score passes 0.55, each
   * once and in no particular order (Go map iteration); matched names each
   * result's question.
   */
  ghost predicate Filtered(results: seq<AnswerResult>, matched: seq<string>, qs: map<string, string>,
                           scores: map<string, Ratio>, query: string, now: Timestamp)
  {
    && |results| == |matched|
    && (forall i, j :: 0 <= i < j < |matched| ==> matched[i] != matched[j])
    && (forall q :: q in matched <==> q in scores && Passes(scores[q]))
    && (forall i :: 0 <= i < |results| ==>
          matched[i] in scores && ResultOf(results[i], matched[i], qs, scores[matched[i]], query, now))
  }

  /** What searchWithConfidence returns for the question map qs. */
  ghost predicate SearchResults(results: seq<AnswerResult>, matched: seq<string>, qs: map<string, string>,
                                ids: map<string, nat>, query: string, segment: Segmenter, now: Timestamp)
  {
    Filtered(results, matched, qs, ScoresOf(ids, query, qs.Keys, segment), query, now)
  }

  /** The body of searchWithConfidence on the questions it reads from its source. */
  method SearchTable(catalog: WordCatalog, table: map<string, string>, query: string, segment: Segmenter, now: Timestamp)
    returns (results: seq<AnswerResult>, ghost matched: seq<string>)
    requires catalog.Valid()
    modifies catalog
    ensures catalog.Valid() && Extends(catalog.ids, old(catalog.ids))
    ensures Known(catalog.ids, Tokens(query, segment))
    ensures forall q :: q in table ==> Known(catalog.ids, Tokens(q, segment))
    ensures catalog.ids.Keys == old(catalog.ids).Keys + Elems(Tokens(query, segment)) + TokensOf(table.Keys, segment)
    ensures SearchResults(results, matched, table, catalog.ids, query, segment, now)
  {
    var questions, questionAnswerMap := QuestionTable.CollectQuestions(table);
    var similarities := CalculateSimilarityParallel(catalog, query, questions, segment);
    TokensOfListed(questions, questionAnswerMap, segment);
    ScoredAgainstIsScoresOf(similarities, catalog.ids, query, segment);
    results, matched := FilterPassing(similarities, questionAnswerMap, query, now);
  }

  /** A question is among the search results exactly when it is in qs and its score passes the threshold. */
  lemma SearchResultsExactlyPassing(results: seq<AnswerResult>, matched: seq<string>, qs: map<string, string>,
                                    ids: map<string, nat>, query: string, segment: Segmenter, now: Timestamp)
    requires SearchResults(results, matched, qs, ids, query, segment, now)
    ensures forall q :: q in matched <==> q in qs && Passes(IdScore(ids, query, q, segment))
    ensures |results| <= |qs|
  {
    var scores := ScoresOf(ids, query, qs.Keys, segment);
    forall q
      ensures q in matched <==> q in qs && Passes(IdScore(ids, query, q, segment))
    {
      if q in qs {
        assert scores[q] == IdScore(ids, query, q, segment);
      }
    }
    QuestionTable.DistinctWithin(matched, qs.Keys);
  }

  /** Every search result passed the threshold, so its confidence lies in [0.55, 1]; it answers the given query with qs's answer. */
  lemma SearchResultsConfident(results: seq<AnswerResult>, matched: seq<string>, qs: map<string, string>,
                               ids: map<string, nat>, query: string, segment: Segmenter, now: Timestamp)
    requires SearchResults(results, matched, qs, ids, query, segment, now)
    ensures forall r :: r in results ==> 0.55 <= r.confidence <= 1.0 && r.query == query && r.timestamp == now
    ensures forall r :: r in results ==> r.matchQuestion in qs && r.answer == qs[r.matchQuestion]
  {
    var scores := ScoresOf(ids, query, qs.Keys, segment);
    forall r | r in results
      ensures 0.55 <= r.confidence <= 1.0
    {
      var i :| 0 <= i < |results| && results[i] == r;
      PassingConfidence(scores[matched[i]]);
    }
  }

  /** Search results do not change when the catalog only gains words. */
  lemma SearchResultsStable(results: seq<AnswerResult>, matched: seq<string>, qs: map<string, string>,
                            later: map<string, nat>, earlier: map<string, nat>, query: string, segment: Segmenter, now: Timestamp)
    requires Extends(later, earlier) && Known(earlier, Tokens(query, segment))
    requires forall q :: q in qs ==> Known(earlier, Tokens(q, segment))
    requires SearchResults(results, matched, qs, earlier, query, segment, now)
    ensures SearchResults(results, matched, qs, later, query, segment, now)
  {
    forall q | q in qs
      ensures IdScore(later, query, q, segment) == IdScore(earlier, query, q, segment)
    {
      IdScoreStable(later, earlier, query, q, segment);
    }
    assert ScoresOf(later, query, qs.Keys, segment) == ScoresOf(earlier, query, qs.Keys, segment);
  }

  /** The filter loop of searchWithConfidence: keep scores above 0.55, rounded to hundredths. */
  method FilterPassing(similarities: map<string, Ratio>, questionAnswerMap: map<string, string>, query: string, now: Timestamp)
    returns (results: seq<AnswerResult>, ghost matched: seq<string>)
    requires similarities.Keys <= questionAnswerMap.Keys
    requires Bounded(similarities)
    ensures Filtered(results, matched, questionAnswerMap, similarities, query, now)
  {
    results := [];
    matched := [];
    var pending := similarities.Keys;
    while pending != {}
      invariant pending <= similarities.Keys
      invariant |results| == |matched|
      invariant forall i, j :: 0 <= i < j < |matched| ==> matched[i] != matched[j]
      invariant forall q :: q in matched <==> q in similarities && q !in pending && Passes(similarities[q])
      invariant forall i :: 0 <= i < |results| ==>
                  matched[i] in similarities && ResultOf(results[i], matched[i], questionAnswerMap, similarities[matched[i]], query, now)
      decreases pending
    {
      var question :| question in pending;
      var similarity := similarities[question];
      if Passes(similarity) {
        var roundedConfidence := Confidence(similarity);
        results := results + [AnswerResult(query, question, questionAnswerMap[question], roundedConfidence, now)];
        matched := matched + [question];
      }
      pending := pending - {question};
    }
  }

  // ---------------------------------------------------------------------
  // Cache seeding.

  /** The cache after every question of qs is stored with json.Marshal(answer) and a one-day expiry. */
  function SeedEntries(e: map<string, ResultCache.Entry>, qs: map<string, string>): (r: map<string, ResultCache.Entry>)
    ensures forall k :: k in r <==> k in e || k in qs
    ensures forall k :: k in qs ==> r[k] == ResultCache.Entry(JStr(qs[k]), ResultCache.DayTtl)
    ensures forall k :: k in e && k !in qs ==> r[k] == e[k]
  {
    e + map q | q in qs :: ResultCache.Entry(JStr(qs[q]), ResultCache.DayTtl)
  }

  /** The questions of t whose write succeeded, with their answers. */
  function Stored(t: map<string, string>, written: set<string>): (r: map<string, string>)
    ensures r.Keys == t.Keys * written
    ensures forall q :: q in r ==> r[q] == t[q]
  {
    map q | q in t && q in written :: t[q]
  }

  /** Stored, map by map. */
  function StoredAll(ts: seq<map<string, string>>, ws: seq<set<string>>): (r: seq<map<string, string>>)
    requires |ws| == |ts|
    ensures |r| == |ts|
    ensures forall k :: 0 <= k < |ts| ==> r[k] == Stored(ts[k], ws[k])
  {
    seq(|ts|, k requires 0 <= k < |ts| => Stored(ts[k], ws[k]))
  }

  /** One more successful write stores that question's answer over the writes before it. */
  lemma SeedOneMore(e: map<string, ResultCache.Entry>, table: map<string, string>, written: set<string>, q: string)
    requires q in table
    ensures SeedEntries(e, Stored(table, written + {q}))
            == SeedEntries(e, Stored(table, written))[q := ResultCache.Entry(JStr(table[q]), ResultCache.DayTtl)]
  {
    assert Stored(table, written + {q}) == Stored(table, written)[q := table[q]];
    SeedEntriesUpdate(e, Stored(table, written), q, table[q]);
  }

  /** Seeding a map with one more question stores that question's answer over the rest. */
  lemma SeedEntriesUpdate(e: map<string, ResultCache.Entry>, qs: map<string, string>, q: string, answer: string)
    ensures SeedEntries(e, qs[q := answer]) == SeedEntries(e, qs)[q := ResultCache.Entry(JStr(answer), ResultCache.DayTtl)]
  {
  }

  /** Seeding from a list of question maps in order, later maps overwriting earlier ones. */
  function SeedAll(e: map<string, ResultCache.Entry>, ts: seq<map<string, string>>): (r: map<string, ResultCache.Entry>)
    ensures e.Keys <= r.Keys
  {
    if ts == [] then e else SeedEntries(SeedAll(e, ts[..|ts| - 1]), ts[|ts| - 1])
  }

  /** After seeding, the cache holds its old keys and every question of every map, and nothing else. */
  lemma {:induction false} SeedAllKeys(e: map<string, ResultCache.Entry>, ts: seq<map<string, string>>)
    ensures forall k :: k in SeedAll(e, ts) <==> k in e || exists j :: 0 <= j < |ts| && k in ts[j]
    decreases |ts|
  {
    if ts != [] {
      var init := ts[..|ts| - 1];
      SeedAllKeys(e, init);
      forall k
        ensures k in SeedAll(e, ts) <==> k in e || exists j :: 0 <= j < |ts| && k in ts[j]
      {
        if k in SeedAll(e, init) && k !in e {
          var j :| 0 <= j < |init| && k in init[j];
          assert ts[j] == init[j];
        }
        if exists j :: 0 <= j < |ts| && k in ts[j] {
          var j :| 0 <= j < |ts| && k in ts[j];
          if j < |init| {
            assert init[j] == ts[j];
          }
        }
      }
    }
  }

  /** After seeding, every question of every map is cached as a JSON string. */
  lemma {:induction false} SeedAllStrings(e: map<string, ResultCache.Entry>, ts: seq<map<string, string>>)
    ensures forall j, k :: 0 <= j < |ts| && k in ts[j] ==> k in SeedAll(e, ts) && SeedAll(e, ts)[k].value.JStr?
    decreases |ts|
  {
    if ts != [] {
      var init := ts[..|ts| - 1];
      SeedAllStrings(e, init);
      forall j, k | 0 <= j < |ts| && k in ts[j]
        ensures k in SeedAll(e, ts) && SeedAll(e, ts)[k].value.JStr?
      {
        if k !in ts[|ts| - 1] {
          assert init[j] == ts[j];
        }
      }
    }
  }

  /** Seeding leaves every key that is in none of the maps as it was. */
  lemma {:induction false} SeedAllKeeps(e: map<string, ResultCache.Entry>, ts: seq<map<string, string>>)
    ensures forall k :: k in e && (forall j :: 0 <= j < |ts| ==> k !in ts[j]) ==> k in SeedAll(e, ts) && SeedAll(e, ts)[k] == e[k]
    decreases |ts|
  {
    if ts != [] {
      var init := ts[..|ts| - 1];
      SeedAllKeeps(e, init);
      forall k | k in e && (forall j :: 0 <= j < |ts| ==> k !in ts[j])
        ensures k in SeedAll(e, ts) && SeedAll(e, ts)[k] == e[k]
      {
        assert k !in ts[|ts| - 1];
        forall j | 0 <= j < |init| ensures k !in init[j] {
          assert init[j] == ts[j];
        }
      }
    }
  }

  /**
   * After seeding, every question of every map is cached under its own
   * text with a value that is not a result list, and every other key keeps
   * its old value.
   */
  lemma SeedAllStoresAnswers(e: map<string, ResultCache.Entry>, ts: seq<map<string, string>>)
    ensures forall k :: k in SeedAll(e, ts) <==> k in e || exists j :: 0 <= j < |ts| && k in ts[j]
    ensures forall k :: k in SeedAll(e, ts) && k !in e ==> !Decode(SeedAll(e, ts)[k].value).ok
    ensures forall j, k :: 0 <= j < |ts| && k in ts[j] ==> SeedAll(e, ts)[k].value.JStr?
    ensures forall k :: k in e && (forall j :: 0 <= j < |ts| ==> k !in ts[j]) ==> SeedAll(e, ts)[k] == e[k]
  {
    SeedAllKeys(e, ts);
    SeedAllStrings(e, ts);
    SeedAllKeeps(e, ts);
  }

  /** Every cached value is the old one or the JSON answer of its question in one of the maps. */
  lemma {:induction false} SeedAllValues(e: map<string, ResultCache.Entry>, ts: seq<map<string, string>>)
    ensures forall k :: k in SeedAll(e, ts) ==>
              (k in e && SeedAll(e, ts)[k] == e[k])
              || exists j :: 0 <= j < |ts| && k in ts[j] && SeedAll(e, ts)[k] == ResultCache.Entry(JStr(ts[j][k]), ResultCache.DayTtl)
    decreases |ts|
  {
    if ts != [] {
      var init := ts[..|ts| - 1];
      SeedAllValues(e, init);
      forall k | k in SeedAll(e, ts) && k !in ts[|ts| - 1] && !(k in e && SeedAll(e, ts)[k] == e[k])
        ensures exists j :: 0 <= j < |ts| && k in ts[j] && SeedAll(e, ts)[k] == ResultCache.Entry(JStr(ts[j][k]), ResultCache.DayTtl)
      {
        var j :| 0 <= j < |init| && k in init[j] && SeedAll(e, init)[k] == ResultCache.Entry(JStr(init[j][k]), ResultCache.DayTtl);
        assert ts[j] == init[j];
      }
    }
  }

  /**
   * Seeding in which any write may have failed: no entry is lost, a key
   * that is no map's question keeps its value, and every other value is
   * the old one or the JSON answer the key has in one of the maps, never
   * a result list unless it was one before.
   */
  lemma SeedingWithFailures(e: map<string, ResultCache.Entry>, ts: seq<map<string, string>>, ws: seq<set<string>>)
    requires |ws| == |ts|
    ensures var r := SeedAll(e, StoredAll(ts, ws));
            && (forall k :: k in e ==> k in r)
            && (forall k :: k in r ==> k in e || exists j :: 0 <= j < |ts| && k in ts[j])
            && (forall k :: k in e && (forall j :: 0 <= j < |ts| ==> k !in ts[j]) ==> r[k] == e[k])
            && (forall k :: k in r ==>
                  (k in e && r[k] == e[k])
                  || exists j :: 0 <= j < |ts| && k in ts[j] && r[k] == ResultCache.Entry(JStr(ts[j][k]), ResultCache.DayTtl))
            && (forall k :: k in r && k !in e ==> !Decode(r[k].value).ok)
  {
    var ss := StoredAll(ts, ws);
    assert Within(ss, ts);
    SeedWithinKeys(e, ss, ts);
    SeedWithinValues(e, ss, ts);
  }

  /** Each map of ss is part of the map of ts at the same position. */
  ghost predicate Within(ss: seq<map<string, string>>, ts: seq<map<string, string>>)
  {
    |ss| == |ts| && forall j, k :: 0 <= j < |ss| && k in ss[j] ==> k in ts[j] && ss[j][k] == ts[j][k]
  }

  /** Seeding with parts of the maps: which keys there are, and that new ones hold no result list. */
  lemma SeedWithinKeys(e: map<string, ResultCache.Entry>, ss: seq<map<string, string>>, ts: seq<map<string, string>>)
    requires Within(ss, ts)
    ensures var r := SeedAll(e, ss);
            && (forall k :: k in e ==> k in r)
            && (forall k :: k in r ==> k in e || exists j :: 0 <= j < |ts| && k in ts[j])
            && (forall k :: k in e && (forall j :: 0 <= j < |ts| ==> k !in ts[j]) ==> r[k] == e[k])
            && (forall k :: k in r && k !in e ==> !Decode(r[k].value).ok)
  {
    var r := SeedAll(e, ss);
    SeedAllKeys(e, ss);
    SeedAllKeeps(e, ss);
    SeedAllStrings(e, ss);
    forall k | k in r && k !in e
      ensures exists j :: 0 <= j < |ts| && k in ts[j]
      ensures !Decode(r[k].value).ok
    {
      var j :| 0 <= j < |ss| && k in ss[j];
    }
    forall k | k in e && (forall j :: 0 <= j < |ts| ==> k !in ts[j])
      ensures r[k] == e[k]
    {
      assert forall j :: 0 <= j < |ss| ==> k !in ss[j];
    }
  }

  /** Seeding with parts of the maps: every value is the old one or an answer from the maps. */
  lemma SeedWithinValues(e: map<string, ResultCache.Entry>, ss: seq<map<string, string>>, ts: seq<map<string, string>>)
    requires Within(ss, ts)
    ensures var r := SeedAll(e, ss);
            forall k :: k in r ==>
              (k in e && r[k] == e[k])
              || exists j :: 0 <= j < |ts| && k in ts[j] && r[k] == ResultCache.Entry(JStr(ts[j][k]), ResultCache.DayTtl)
  {
    var r := SeedAll(e, ss);
    SeedAllValues(e, ss);
    forall k | k in r && !(k in e && r[k] == e[k])
      ensures exists j :: 0 <= j < |ts| && k in ts[j] && r[k] == ResultCache.Entry(JStr(ts[j][k]), ResultCache.DayTtl)
    {
      var j :| 0 <= j < |ss| && k in ss[j] && r[k] == ResultCache.Entry(JStr(ss[j][k]), ResultCache.DayTtl);
    }
  }

  /**
   * The end of FindBestAnswer: the answers sorted by confidence, highest
   * first, and cut to maxAnswers; no answer left is NotFound.
   */
  method RankAnswers(answers: seq<AnswerResult>, maxAnswers: int) returns (r: Result<seq<AnswerResult>, string>)
    requires maxAnswers >= 0
    ensures r.Failure? <==> answers == [] || maxAnswers == 0
    ensures r.Failure? ==> r.error == NotFound
    ensures r.Success? ==> Ranking.KeepsBest(r.value, answers, maxAnswers, ConfidenceOf)
  {
    var allAnswers := answers;
    Ranking.SortThenCut(allAnswers, maxAnswers, ConfidenceOf);
    allAnswers := Ranking.SortDesc(allAnswers, ConfidenceOf);
    if |allAnswers| > maxAnswers {
      allAnswers := allAnswers[..maxAnswers];
    }
    if |allAnswers| == 0 {
      return Failure(NotFound);
    }
    r := Success(allAnswers);
  }

  // ---------------------------------------------------------------------
  // The service.

  class FAQService {
    var sources: seq<QuestionSource.Source>
    /** The configured maximum number of answers (at least 1 as the initializer sets it). */
    const maxAnswers: int
    const redisClient: ResultCache.KeyValueStore
    /** The package-level wordIDMap and wordIDCounter, shared by every service. */
    const words: WordCatalog

    constructor (maxAnswers: int, redisClient: ResultCache.KeyValueStore, words: WordCatalog)
      ensures sources == [] && this.maxAnswers == maxAnswers
      ensures this.redisClient == redisClient && this.words == words
    {
      sources := [];
      this.maxAnswers := maxAnswers;
      this.redisClient := redisClient;
      this.words := words;
    }

    method AddSource(source: QuestionSource.Source)
      modifies this
      ensures sources == old(sources) + [source]
    {
      sources := sources + [source];
    }

    /**
     * searchWithConfidence: score every question of the source against the
     * query and keep the passing ones. The catalog only gains words, every
     * word of the query and of the questions ends up with an ID, and the
     * results are exactly the passing questions under the final catalog.
     */
    method SearchWithConfidence(source: QuestionSource.Source, query: string, segment: Segmenter, now: Timestamp)
      returns (results: seq<AnswerResult>, ghost matched: seq<string>)
      requires words.Valid()
      modifies words
      ensures words.Valid() && Extends(words.ids, old(words.ids))
      ensures Known(words.ids, Tokens(query, segment))
      ensures forall q :: q in old(QuestionSource.GetQuestions(source)) ==> Known(words.ids, Tokens(q, segment))
      ensures words.ids.Keys
              == old(words.ids).Keys + Elems(Tokens(query, segment)) + TokensOf(old(QuestionSource.GetQuestions(source)).Keys, segment)
      ensures SearchResults(results, matched, old(QuestionSource.GetQuestions(source)), words.ids, query, segment, now)
      ensures forall k :: 0 <= k < |sources| ==> QuestionSource.GetQuestions(sources[k]) == old(QuestionSource.GetQuestions(sources[k]))
    {
      var table := QuestionSource.GetQuestions(source);
      results, matched := SearchTable(words, table, query, segment, now);
      CatalogIsNoSource(sources, words);
      QuestionSource.QuestionsUnchanged(sources);
    }

    /**
     * InitializeFAQCache: store every question of the source under its own
     * text, with json.Marshal(answer) and a one-day expiry. A failed Set is
     * logged and skipped; `written` names the questions whose write
     * succeeded.
     */
    method InitializeFAQCache(source: QuestionSource.Source) returns (ghost written: set<string>)
      modifies redisClient
      ensures written <= QuestionSource.GetQuestions(source).Keys
      ensures redisClient.entries
              == SeedEntries(old(redisClient.entries), Stored(QuestionSource.GetQuestions(source), written))
    {
      var table := QuestionSource.GetQuestions(source);
      var rest := table.Keys;
      written := {};
      while rest != {}
        invariant rest <= table.Keys && written <= table.Keys
        invariant redisClient.entries == SeedEntries(old(redisClient.entries), Stored(table, written))
        decreases rest
      {
        var question :| question in rest;
        var cachedData := JStr(table[question]);
        var ok := redisClient.Set(question, cachedData, ResultCache.DayTtl);
        if ok {
          SeedOneMore(old(redisClient.entries), table, written, question);
          written := written + {question};
        }
        rest := rest - {question};
      }
    }

    /** The loop of FindBestAnswer over the sources: every source's search results, appended in source order. */
    method SearchAll(query: string, segment: Segmenter, now: Timestamp)
      returns (answers: seq<AnswerResult>, ghost perSource: seq<seq<AnswerResult>>, ghost matched: seq<seq<string>>)
      requires words.Valid()
      modifies words
      ensures words.Valid() && Extends(words.ids, old(words.ids))
      ensures words.ids.Keys == old(words.ids).Keys + Vocabulary(old(QuestionSource.Tables(sources)), query, segment)
      ensures answers == Ranking.Flatten(perSource)
      ensures AllSearchResults(perSource, matched, old(QuestionSource.Tables(sources)), words.ids, query, segment, now)
    {
      answers, perSource, matched := [], [], [];
      ghost var tables := QuestionSource.Tables(sources);
      ghost var start := words.ids.Keys;
      assert tables[..0] == [];
      for i := 0 to |sources|
        invariant SearchedUpTo(words, old(words.ids), start, sources, tables, i, answers, perSource, matched, query, segment, now)
      {
        ghost var before := words.ids;
        var results, found := SearchNext(i, tables, perSource, matched, query, segment, now);
        SearchedOneMore(words, old(words.ids), start, before, sources, tables, i, answers, perSource, matched,
                        results, found, query, segment, now);
        answers := answers + results;
        perSource, matched := perSource + [results], matched + [found];
      }
      assert tables[..|sources|] == tables;
    }

    /** One iteration of SearchAll: search source i and add its results to those of the sources before it. */
    method SearchNext(i: nat, ghost tables: seq<map<string, string>>,
                      ghost perSource: seq<seq<AnswerResult>>, ghost matched: seq<seq<string>>,
                      query: string, segment: Segmenter, now: Timestamp)
      returns (results: seq<AnswerResult>, ghost found: seq<string>)
      requires words.Valid()
      requires i < |sources| == |tables|
      requires forall k :: 0 <= k < |sources| ==> QuestionSource.GetQuestions(sources[k]) == tables[k]
      requires i > 0 ==> Known(words.ids, Tokens(query, segment))
      requires AllSearchResults(perSource, matched, tables[..i], words.ids, query, segment, now)
      modifies words
      ensures words.Valid() && Extends(words.ids, old(words.ids))
      ensures Known(words.ids, Tokens(query, segment))
      ensures words.ids.Keys == old(words.ids).Keys + Elems(Tokens(query, segment)) + TokensOf(tables[i].Keys, segment)
      ensures forall k :: 0 <= k < |sources| ==> QuestionSource.GetQuestions(sources[k]) == tables[k]
      ensures AllSearchResults(perSource + [results], matched + [found], tables[..i + 1], words.ids, query, segment, now)
    {
      ghost var before := words.ids;
      results, found := SearchWithConfidence(sources[i], query, segment, now);
      NextResults(perSource, matched, tables, i, results, found, words.ids, before, query, segment, now);
    }

    /**
     * FindBestAnswer. A cache hit that decodes as a result list is returned
     * as it is, and nothing else is done. Otherwise the pool is whatever the
     * failed decode left in the slice, followed by every source's passing
     * questions in source order; the answer is the pool's top maxAnswers, or
     * NotFound when that is empty.
     */
    method FindBestAnswer(query: string, segment: Segmenter, now: Timestamp)
      returns (r: Result<seq<AnswerResult>, string>, ghost cached: Option<Json>,
               ghost pool: seq<AnswerResult>, ghost perSource: seq<seq<AnswerResult>>, ghost matched: seq<seq<string>>)
      requires words.Valid()
      requires maxAnswers >= 0
      modifies words
      ensures words.Valid() && Extends(words.ids, old(words.ids))
      ensures cached.Some? ==> query in redisClient.entries && cached.value == redisClient.entries[query].value
      ensures query !in redisClient.entries ==> cached.None?
      ensures cached.Some? && Decode(cached.value).ok ==> r == Success(Decode(cached.value).results) && words.ids == old(words.ids)
      ensures !(cached.Some? && Decode(cached.value).ok) ==>
                && AllSearchResults(perSource, matched, old(QuestionSource.Tables(sources)), words.ids, query, segment, now)
                && words.ids.Keys == old(words.ids).Keys + Vocabulary(old(QuestionSource.Tables(sources)), query, segment)
                && pool == (if cached.Some? then Decode(cached.value).results else []) + Ranking.Flatten(perSource)
                && (r.Failure? <==> pool == [] || maxAnswers == 0)
                && (r.Failure? ==> r.error == NotFound)
                && (r.Success? ==> Ranking.KeepsBest(r.value, pool, maxAnswers, ConfidenceOf))
    {
      var allAnswers: seq<AnswerResult> := [];
      ghost var tables := QuestionSource.Tables(sources);
      var cachedResult := redisClient.Get(query);
      assert QuestionSource.Tables(sources) == tables;
      cached := cachedResult;
      if cachedResult.Some? {
        var decoded := Decode(cachedResult.value);
        if decoded.ok {
          return Success(decoded.results), cached, decoded.results, [], [];
        }
        allAnswers := decoded.results;
      }
      r, pool, perSource, matched := SearchAndRank(allAnswers, query, segment, now);
    }

    /**
     * The part of FindBestAnswer after a cache miss: every source's passing
     * questions are appended to `start`, and the pool is sorted by
     * confidence and cut to maxAnswers.
     */
    method SearchAndRank(start: seq<AnswerResult>, query: string, segment: Segmenter, now: Timestamp)
      returns (r: Result<seq<AnswerResult>, string>,
               ghost pool: seq<AnswerResult>, ghost perSource: seq<seq<AnswerResult>>, ghost matched: seq<seq<string>>)
      requires words.Valid()
      requires maxAnswers >= 0
      modifies words
      ensures words.Valid() && Extends(words.ids, old(words.ids))
      ensures AllSearchResults(perSource, matched, old(QuestionSource.Tables(sources)), words.ids, query, segment, now)
      ensures words.ids.Keys == old(words.ids).Keys + Vocabulary(old(QuestionSource.Tables(sources)), query, segment)
      ensures pool == start + Ranking.Flatten(perSource)
      ensures r.Failure? <==> pool == [] || maxAnswers == 0
      ensures r.Failure? ==> r.error == NotFound
      ensures r.Success? ==> Ranking.KeepsBest(r.value, pool, maxAnswers, ConfidenceOf)
    {
      var found;
      found, perSource, matched := SearchAll(query, segment, now);
      var allAnswers := start + found;
      pool := allAnswers;
      r := RankAnswers(allAnswers, maxAnswers);
    }

    /**
     * LoadAllSources: load the sources in order and seed the cache with each
     * loaded source's questions, stopping at the first source whose
     * LoadQuestions returns an error (that source is loaded, its questions
     * are not cached, and no later source is touched). A handler added twice
     * is loaded twice, which leaves its map as one load does. `written[k]`
     * names the questions of source k whose cache write succeeded.
     */
    method LoadAllSources(env: Env) returns (err: Option<LoadError>, ghost written: seq<set<string>>)
      modifies redisClient, QuestionSource.Objs(sources)
      ensures var n := QuestionSource.LoadedCount(sources, env);
              err == if n < |sources| then QuestionSource.Reported(sources[n], env) else None
      ensures var n := QuestionSource.LoadedCount(sources, env);
              QuestionSource.LoadedOnce(QuestionSource.Tables(sources), sources, if n < |sources| then n + 1 else n,
                         old(QuestionSource.Tables(sources)), env)
      ensures Seeded(redisClient.entries, old(redisClient.entries),
                     QuestionSource.Tables(sources[..QuestionSource.LoadedCount(sources, env)]), written)
    {
      ServiceIsNoSource(sources, this);
      err, written := LoadInOrder(sources, env);
    }

    /** LoadAllSources over a given list of sources: the maps before loading are the starting point of every load. */
    method LoadInOrder(srcs: seq<QuestionSource.Source>, env: Env) returns (err: Option<LoadError>, ghost written: seq<set<string>>)
      modifies redisClient, QuestionSource.Objs(srcs)
      ensures var n := QuestionSource.LoadedCount(srcs, env);
              err == if n < |srcs| then QuestionSource.Reported(srcs[n], env) else None
      ensures var n := QuestionSource.LoadedCount(srcs, env);
              QuestionSource.LoadedOnce(QuestionSource.Tables(srcs), srcs, if n < |srcs| then n + 1 else n,
                         old(QuestionSource.Tables(srcs)), env)
      ensures Seeded(redisClient.entries, old(redisClient.entries),
                     QuestionSource.Tables(srcs[..QuestionSource.LoadedCount(srcs, env)]), written)
    {
      ghost var e0 := redisClient.entries;
      ghost var initial := QuestionSource.Tables(srcs);
      ghost var target := QuestionSource.LoadTargets(srcs, initial, env);
      var i;
      err, i, written := LoadUntilError(srcs, initial, target, env, e0);
      SeedPrefixIsSeedAll(e0, target, written);
      QuestionSource.LoadsFinished(QuestionSource.Tables(srcs), srcs, i, initial, target, env);
      QuestionSource.TablesPrefix(srcs, i);
      QuestionSource.LoadedPrefixIsTarget(QuestionSource.Tables(srcs), srcs, i, if i < |srcs| then i + 1 else i, initial, target);
    }

    /**
     * The sources from the first on, each loaded and then seeded, up to and
     * including the first that reports an error; i is the count of sources
     * loaded without an error.
     */
    method LoadUntilError(srcs: seq<QuestionSource.Source>, ghost initial: seq<map<string, string>>,
                          ghost target: seq<map<string, string>>, env: Env, ghost e0: map<string, ResultCache.Entry>)
      returns (err: Option<LoadError>, i: nat, ghost written: seq<set<string>>)
      requires QuestionSource.Targets(srcs, initial, target, env)
      requires QuestionSource.LoadedUpTo(QuestionSource.Tables(srcs), srcs, 0, initial, target)
      requires redisClient.entries == e0
      modifies redisClient, QuestionSource.Objs(srcs)
      ensures LoadOutcome(redisClient, srcs, err, i, initial, target, env, e0, written)
    {
      err := None;
      i := 0;
      written := [];
      while i < |srcs|
        invariant 0 <= i <= |srcs|
        invariant LoadProgress(redisClient, srcs, i, initial, target, env, e0, written)
        invariant err == None
      {
        err, written := LoadAndSeed(srcs, i, initial, target, env, e0, written);
        if err.Some? {
          return;
        }
        i := i + 1;
      }
      FinishedOutcome(redisClient, srcs, initial, target, env, e0, written);
    }

    /**
     * One iteration of LoadAllSources: load source i; if it reports no
     * error, seed the cache with its questions.
     */
    method LoadAndSeed(srcs: seq<QuestionSource.Source>, i: nat, ghost initial: seq<map<string, string>>,
                       ghost target: seq<map<string, string>>, env: Env, ghost e0: map<string, ResultCache.Entry>,
                       ghost before: seq<set<string>>)
      returns (err: Option<LoadError>, ghost written: seq<set<string>>)
      requires i < |srcs|
      requires QuestionSource.Targets(srcs, initial, target, env)
      requires LoadProgress(redisClient, srcs, i, initial, target, env, e0, before)
      modifies redisClient, QuestionSource.Obj(srcs[i])
      ensures err == QuestionSource.Reported(srcs[i], env)
      ensures QuestionSource.LoadedUpTo(QuestionSource.Tables(srcs), srcs, i + 1, initial, target)
      ensures err.None? ==> LoadProgress(redisClient, srcs, i + 1, initial, target, env, e0, written)
      ensures err.Some? ==> written == before && LoadOutcome(redisClient, srcs, err, i, initial, target, env, e0, written)
    {
      HandlerIsNotStore(srcs[i], redisClient);
      ghost var e1 := redisClient.entries;
      written := before;
      err := QuestionSource.LoadOne(srcs, i, initial, target, env);
      assert redisClient.entries == e1;
      if err.None? {
        assert srcs[i] in srcs[..i + 1];
        written := SeedSource(srcs, i, target, e0, before);
        QuestionSource.CleanOneMore(srcs, i, env);
      }
    }

    /** Seeds the cache with the questions of source i, which holds its target map. */
    method SeedSource(srcs: seq<QuestionSource.Source>, i: nat, ghost target: seq<map<string, string>>,
                      ghost e0: map<string, ResultCache.Entry>, ghost before: seq<set<string>>)
      returns (ghost written: seq<set<string>>)
      requires i < |srcs| == |target|
      requires QuestionSource.GetQuestions(srcs[i]) == target[i]
      requires |before| == i && SeededStore(redisClient, e0, target, before)
      modifies redisClient
      ensures QuestionSource.Tables(srcs) == old(QuestionSource.Tables(srcs))
      ensures |written| == i + 1 && SeededStore(redisClient, e0, target, written)
    {
      ghost var tables := QuestionSource.Tables(srcs);
      HandlerIsNotStore(srcs[i], redisClient);
      ghost var w := InitializeFAQCache(srcs[i]);
      forall k | 0 <= k < |srcs|
        ensures QuestionSource.GetQuestions(srcs[k]) == tables[k]
      {
        HandlerIsNotStore(srcs[k], redisClient);
      }
      assert QuestionSource.Tables(srcs) == tables;
      SeedPrefixOneMore(e0, target, before, w);
      written := before + [w];
    }
  }

  /**
   * The cache `c` holds `e0` seeded with the maps ts, of whose questions
   * only those in ws (one set per map) were written successfully.
   */
  ghost predicate Seeded(c: map<string, ResultCache.Entry>, e0: map<string, ResultCache.Entry>,
                         ts: seq<map<string, string>>, ws: seq<set<string>>)
  {
    && |ws| == |ts|
    && c == SeedAll(e0, StoredAll(ts, ws))
  }

  /**
   * The cache after seeding the first |ws| maps of ts, in order, with the
   * writes ws that succeeded for each.
   */
  ghost function SeedPrefix(e0: map<string, ResultCache.Entry>, ts: seq<map<string, string>>, ws: seq<set<string>>)
    : map<string, ResultCache.Entry>
    requires |ws| <= |ts|
    decreases |ws|
  {
    if ws == [] then e0
    else SeedEntries(SeedPrefix(e0, ts, ws[..|ws| - 1]), Stored(ts[|ws| - 1], ws[|ws| - 1]))
  }

  /**
   * The first i sources loaded cleanly, each then loaded once, and the store
   * seeded with the first i targets' successful writes.
   */
  ghost predicate LoadProgress(c: ResultCache.KeyValueStore, srcs: seq<QuestionSource.Source>, i: nat,
                               initial: seq<map<string, string>>, target: seq<map<string, string>>, env: Env,
                               e0: map<string, ResultCache.Entry>, written: seq<set<string>>)
    reads c, QuestionSource.Objs(srcs)
  {
    && QuestionSource.LoadsCleanly(srcs, i, env)
    && QuestionSource.LoadedUpTo(QuestionSource.Tables(srcs), srcs, i, initial, target)
    && |written| == i && SeededStore(c, e0, target, written)
  }

  /**
   * How a load pass ended: the first i sources loaded cleanly, err is the
   * error source i reported (none when all loaded), every source up to and
   * including the failing one loaded once, and the store seeded with the
   * first i targets' successful writes.
   */
  ghost predicate LoadOutcome(c: ResultCache.KeyValueStore, srcs: seq<QuestionSource.Source>, err: Option<LoadError>,
                              i: nat, initial: seq<map<string, string>>, target: seq<map<string, string>>, env: Env,
                              e0: map<string, ResultCache.Entry>, written: seq<set<string>>)
    reads c, QuestionSource.Objs(srcs)
  {
    && i <= |srcs|
    && QuestionSource.LoadsCleanly(srcs, i, env)
    && err == (if i < |srcs| then QuestionSource.Reported(srcs[i], env) else None)
    && (i < |srcs| ==> err.Some?)
    && QuestionSource.LoadedUpTo(QuestionSource.Tables(srcs), srcs, if i < |srcs| then i + 1 else i, initial, target)
    && |written| == i && SeededStore(c, e0, target, written)
  }

  /** A pass that loaded every source cleanly ends without an error. */
  lemma FinishedOutcome(c: ResultCache.KeyValueStore, srcs: seq<QuestionSource.Source>, initial: seq<map<string, string>>,
                        target: seq<map<string, string>>, env: Env, e0: map<string, ResultCache.Entry>,
                        written: seq<set<string>>)
    requires LoadProgress(c, srcs, |srcs|, initial, target, env, e0, written)
    ensures LoadOutcome(c, srcs, None, |srcs|, initial, target, env, e0, written)
  {
  }

  /** The store holds e0 seeded with the first |ws| maps of ts. */
  ghost predicate SeededStore(c: ResultCache.KeyValueStore, e0: map<string, ResultCache.Entry>,
                              ts: seq<map<string, string>>, ws: seq<set<string>>)
    reads c
  {
    |ws| <= |ts| && c.entries == SeedPrefix(e0, ts, ws)
  }

  lemma SeedPrefixOneMore(e0: map<string, ResultCache.Entry>, ts: seq<map<string, string>>, ws: seq<set<string>>,
                          w: set<string>)
    requires |ws| < |ts|
    ensures SeedPrefix(e0, ts, ws + [w]) == SeedEntries(SeedPrefix(e0, ts, ws), Stored(ts[|ws|], w))
  {
    assert (ws + [w])[..|ws|] == ws;
  }

  /** Seeding a prefix map by map is seeding the prefix's stored maps as a list. */
  lemma {:induction false} SeedPrefixIsSeedAll(e0: map<string, ResultCache.Entry>, ts: seq<map<string, string>>,
                                                ws: seq<set<string>>)
    requires |ws| <= |ts|
    ensures SeedPrefix(e0, ts, ws) == SeedAll(e0, StoredAll(ts[..|ws|], ws))
    decreases |ws|
  {
    if ws != [] {
      var i := |ws| - 1;
      SeedPrefixIsSeedAll(e0, ts, ws[..i]);
      assert ws == ws[..i] + [ws[i]];
      SeedAllOneMore(e0, ts, ws[..i], i, ws[i]);
    } else {
      assert StoredAll(ts[..0], ws) == [];
    }
  }

  /** Seeding one more map of the list, with the writes that succeeded for it. */
  lemma SeedAllOneMore(e: map<string, ResultCache.Entry>, ts: seq<map<string, string>>, ws: seq<set<string>>,
                       i: nat, w: set<string>)
    requires i < |ts| && |ws| == i
    ensures SeedAll(e, StoredAll(ts[..i + 1], ws + [w])) == SeedEntries(SeedAll(e, StoredAll(ts[..i], ws)), Stored(ts[i], w))
  {
    var longer := StoredAll(ts[..i + 1], ws + [w]);
    assert longer == StoredAll(ts[..i], ws) + [Stored(ts[i], w)];
    SeedAllSnoc(e, StoredAll(ts[..i], ws), Stored(ts[i], w));
  }

  lemma SeedAllSnoc(e: map<string, ResultCache.Entry>, ss: seq<map<string, string>>, m: map<string, string>)
    ensures SeedAll(e, ss + [m]) == SeedEntries(SeedAll(e, ss), m)
  {
    assert (ss + [m])[..|ss|] == ss;
  }

  /** The service object is not one of its sources. */
  lemma ServiceIsNoSource(srcs: seq<QuestionSource.Source>, svc: FAQService)
    ensures svc !in QuestionSource.Objs(srcs)
  {
  }

  /** No question source is the result cache, so seeding leaves every source's questions alone. */
  lemma HandlerIsNotStore(s: QuestionSource.Source, c: ResultCache.KeyValueStore)
    ensures QuestionSource.Obj(s) != c
  {
  }

  /** The word catalog is not one of the sources, so scoring leaves every source's questions alone. */
  lemma CatalogIsNoSource(srcs: seq<QuestionSource.Source>, c: WordCatalog)
    ensures c !in QuestionSource.Objs(srcs)
  {
  }

  /**
   * The state after searching the first i sources: the catalog grew from
   * e0 by their vocabulary (start holds e0's words), no source changed, and
   * answers is their search results appended in order.
   */
  ghost predicate SearchedUpTo(catalog: WordCatalog, e0: map<string, nat>, start: set<string>,
                               srcs: seq<QuestionSource.Source>, tables: seq<map<string, string>>, i: nat,
                               answers: seq<AnswerResult>, perSource: seq<seq<AnswerResult>>, matched: seq<seq<string>>,
                               query: string, segment: Segmenter, now: Timestamp)
    reads catalog, QuestionSource.Objs(srcs)
  {
    && i <= |srcs| == |tables|
    && catalog.Valid() && Extends(catalog.ids, e0)
    && catalog.ids.Keys == start + Vocabulary(tables[..i], query, segment)
    && answers == Ranking.Flatten(perSource)
    && (i > 0 ==> Known(catalog.ids, Tokens(query, segment)))
    && (forall k :: 0 <= k < |srcs| ==> QuestionSource.GetQuestions(srcs[k]) == tables[k])
    && AllSearchResults(perSource, matched, tables[..i], catalog.ids, query, segment, now)
  }

  /** Searching source i after the first i leaves the state after the first i + 1. */
  lemma SearchedOneMore(catalog: WordCatalog, e0: map<string, nat>, start: set<string>, before: map<string, nat>,
                        srcs: seq<QuestionSource.Source>, tables: seq<map<string, string>>, i: nat,
                        answers: seq<AnswerResult>, perSource: seq<seq<AnswerResult>>, matched: seq<seq<string>>,
                        results: seq<AnswerResult>, found: seq<string>, query: string, segment: Segmenter, now: Timestamp)
    requires i < |srcs| == |tables|
    requires catalog.Valid() && Extends(catalog.ids, before) && Extends(before, e0)
    requires before.Keys == start + Vocabulary(tables[..i], query, segment)
    requires answers == Ranking.Flatten(perSource)
    requires Known(catalog.ids, Tokens(query, segment))
    requires catalog.ids.Keys == before.Keys + Elems(Tokens(query, segment)) + TokensOf(tables[i].Keys, segment)
    requires forall k :: 0 <= k < |srcs| ==> QuestionSource.GetQuestions(srcs[k]) == tables[k]
    requires AllSearchResults(perSource + [results], matched + [found], tables[..i + 1], catalog.ids, query, segment, now)
    ensures SearchedUpTo(catalog, e0, start, srcs, tables, i + 1, answers + results, perSource + [results],
                         matched + [found], query, segment, now)
  {
    VocabularyStep(catalog.ids.Keys, before.Keys, start, tables, i, query, segment);
    Ranking.FlattenOneMore(perSource, results);
  }

  /** Every question of every map. */
  ghost function AllQuestions(tables: seq<map<string, string>>): set<string>
    decreases |tables|
  {
    if tables == [] then {} else AllQuestions(tables[..|tables| - 1]) + tables[|tables| - 1].Keys
  }

  /**
   * The words FindBestAnswer's search registers over the maps: the query's
   * tokens (once there is a source to search) and every question's tokens.
   */
  ghost function Vocabulary(tables: seq<map<string, string>>, query: string, segment: Segmenter): set<string>
  {
    if tables == [] then {} else Elems(Tokens(query, segment)) + TokensOf(AllQuestions(tables), segment)
  }

  lemma TokensOfUnion(a: set<string>, b: set<string>, segment: Segmenter)
    ensures TokensOf(a + b, segment) == TokensOf(a, segment) + TokensOf(b, segment)
  {
  }

  /** Searching one more map registers the query's tokens and that map's question tokens. */
  lemma VocabularyStep(keys: set<string>, before: set<string>, start: set<string>,
                       tables: seq<map<string, string>>, i: nat, query: string, segment: Segmenter)
    requires i < |tables|
    requires before == start + Vocabulary(tables[..i], query, segment)
    requires keys == before + Elems(Tokens(query, segment)) + TokensOf(tables[i].Keys, segment)
    ensures keys == start + Vocabulary(tables[..i + 1], query, segment)
  {
    assert tables[..i + 1][..i] == tables[..i];
    TokensOfUnion(AllQuestions(tables[..i]), tables[i].Keys, segment);
  }

  /**
   * perSource[k] and matched[k] are what searchWithConfidence returns for
   * the k-th question map, each of whose questions the catalog knows;
   * stated for the last map and, recursively, for the ones before it.
   */
  ghost predicate AllSearchResults(perSource: seq<seq<AnswerResult>>, matched: seq<seq<string>>, tables: seq<map<string, string>>,
                                   ids: map<string, nat>, query: string, segment: Segmenter, now: Timestamp)
    decreases |tables|
  {
    && |perSource| == |matched| == |tables|
    && (|tables| > 0 ==>
          && AllSearchResults(perSource[..|tables| - 1], matched[..|tables| - 1], tables[..|tables| - 1], ids, query, segment, now)
          && (forall q :: q in tables[|tables| - 1] ==> Known(ids, Tokens(q, segment)))
          && SearchResults(perSource[|tables| - 1], matched[|tables| - 1], tables[|tables| - 1], ids, query, segment, now))
  }

  /** Each source's entry of AllSearchResults. */
  lemma {:induction false} SearchResultsAt(perSource: seq<seq<AnswerResult>>, matched: seq<seq<string>>, tables: seq<map<string, string>>,
                                           ids: map<string, nat>, query: string, segment: Segmenter, now: Timestamp, k: nat)
    requires AllSearchResults(perSource, matched, tables, ids, query, segment, now)
    requires k < |tables|
    ensures forall q :: q in tables[k] ==> Known(ids, Tokens(q, segment))
    ensures SearchResults(perSource[k], matched[k], tables[k], ids, query, segment, now)
  {
    var n := |tables| - 1;
    if k < n {
      SearchResultsAt(perSource[..n], matched[..n], tables[..n], ids, query, segment, now, k);
      SameSearch(perSource[..n][k], matched[..n][k], tables[..n][k], perSource[k], matched[k], tables[k], ids, query, segment, now);
    } else {
      SameSearch(perSource[n], matched[n], tables[n], perSource[k], matched[k], tables[k], ids, query, segment, now);
    }
  }

  /** SearchResults of equal arguments. */
  lemma SameSearch(r1: seq<AnswerResult>, m1: seq<string>, t1: map<string, string>,
                   r2: seq<AnswerResult>, m2: seq<string>, t2: map<string, string>,
                   ids: map<string, nat>, query: string, segment: Segmenter, now: Timestamp)
    requires SearchResults(r1, m1, t1, ids, query, segment, now)
    requires r1 == r2 && m1 == m2 && t1 == t2
    ensures SearchResults(r2, m2, t2, ids, query, segment, now)
  {
  }

  /** One more source's search results extend the list. */
  lemma ExtendResults(perSource: seq<seq<AnswerResult>>, matched: seq<seq<string>>, tables: seq<map<string, string>>,
                      results: seq<AnswerResult>, found: seq<string>, table: map<string, string>,
                      ids: map<string, nat>, query: string, segment: Segmenter, now: Timestamp)
    requires AllSearchResults(perSource, matched, tables, ids, query, segment, now)
    requires forall q :: q in table ==> Known(ids, Tokens(q, segment))
    requires SearchResults(results, found, table, ids, query, segment, now)
    ensures AllSearchResults(perSource + [results], matched + [found], tables + [table], ids, query, segment, now)
  {
    assert (perSource + [results])[..|perSource|] == perSource;
    assert (matched + [found])[..|matched|] == matched;
    assert (tables + [table])[..|tables|] == tables;
  }

  /** The results for the first i sources, found against an earlier catalog, followed by those for source i. */
  lemma NextResults(perSource: seq<seq<AnswerResult>>, matched: seq<seq<string>>, tables: seq<map<string, string>>, i: nat,
                    results: seq<AnswerResult>, found: seq<string>,
                    later: map<string, nat>, earlier: map<string, nat>, query: string, segment: Segmenter, now: Timestamp)
    requires i < |tables|
    requires Extends(later, earlier)
    requires i > 0 ==> Known(earlier, Tokens(query, segment))
    requires AllSearchResults(perSource, matched, tables[..i], earlier, query, segment, now)
    requires forall q :: q in tables[i] ==> Known(later, Tokens(q, segment))
    requires SearchResults(results, found, tables[i], later, query, segment, now)
    ensures AllSearchResults(perSource + [results], matched + [found], tables[..i + 1], later, query, segment, now)
  {
    if i > 0 {
      KeepEarlierResults(perSource, matched, tables[..i], later, earlier, query, segment, now);
    }
    TakeOneMore(tables, i);
    ExtendResults(perSource, matched, tables[..i], results, found, tables[i], later, query, segment, now);
  }

  /** A prefix one longer is the prefix followed by the next element. */
  lemma TakeOneMore<T>(s: seq<T>, i: nat)
    requires i < |s|
    ensures s[..i + 1] == s[..i] + [s[i]]
  {
  }

  /** Results computed against an earlier catalog stay the results against a catalog that only gained words. */
  lemma {:induction false} KeepEarlierResults(perSource: seq<seq<AnswerResult>>, matched: seq<seq<string>>, tables: seq<map<string, string>>,
                                              later: map<string, nat>, earlier: map<string, nat>,
                                              query: string, segment: Segmenter, now: Timestamp)
    requires Extends(later, earlier) && Known(earlier, Tokens(query, segment))
    requires AllSearchResults(perSource, matched, tables, earlier, query, segment, now)
    ensures AllSearchResults(perSource, matched, tables, later, query, segment, now)
    decreases |tables|
  {
    if |tables| > 0 {
      var n := |tables| - 1;
      KeepEarlierResults(perSource[..n], matched[..n], tables[..n], later, earlier, query, segment, now);
      SearchResultsStable(perSource[n], matched[n], tables[n], later, earlier, query, segment, now);
    }
  }
}
