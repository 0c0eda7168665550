/**
 * The question -> answer map every handler keeps: how parsed rows are
 * ingested into it, and the case-insensitive substring lookup that every
 * handler's FindAnswer performs on it.
 */
module QuestionTable {
  import opened Wrappers
  import Text

  type Table = map<string, string>

  /** One row: a row of two or more cells stores row[0] -> row[1]; other cells are ignored. */
  function Put(m: Table, row: seq<string>): (r: Table)
    ensures m.Keys <= r.Keys
    ensures |r.Keys| <= |m.Keys| + 1
  {
    if |row| >= 2 then m[row[0] := row[1]] else m
  }

  /** The rows applied to m in order, the last one last. */
  function Ingest(m: Table, rows: seq<seq<string>>): (r: Table)
    ensures m.Keys <= r.Keys
    ensures |r.Keys| <= |m.Keys| + |rows|
    decreases |rows|
  {
    if rows == [] then m else Put(Ingest(m, rows[..|rows| - 1]), rows[|rows| - 1])
  }

  /** Reference definition: the answer of the last row of two or more cells whose question is q. */
  function LastAnswer(rows: seq<seq<string>>, q: string): Option<string>
    decreases |rows|
  {
    if rows == [] then None
    else
      var last := rows[|rows| - 1];
      if |last| >= 2 && last[0] == q then Some(last[1]) else LastAnswer(rows[..|rows| - 1], q)
  }

  /** Last write wins: after ingestion q maps to its last row's answer, or keeps its old entry. */
  lemma {:induction false} IngestLastWriteWins(m: Table, rows: seq<seq<string>>, q: string)
    ensures q in Ingest(m, rows) <==> (LastAnswer(rows, q).Some? || q in m)
    ensures LastAnswer(rows, q).Some? ==> Ingest(m, rows)[q] == LastAnswer(rows, q).value
    ensures LastAnswer(rows, q).None? && q in m ==> Ingest(m, rows)[q] == m[q]
    decreases |rows|
  {
    if rows != [] {
      IngestLastWriteWins(m, rows[..|rows| - 1], q);
    }
  }

  /** Insert-only: no entry is removed, and an entry no row names keeps its answer. */
  lemma IngestInsertOnly(m: Table, rows: seq<seq<string>>)
    ensures m.Keys <= Ingest(m, rows).Keys
    ensures forall q :: q in m && LastAnswer(rows, q).None? ==> Ingest(m, rows)[q] == m[q]
  {
    forall q | q in m
      ensures q in Ingest(m, rows)
      ensures LastAnswer(rows, q).None? ==> Ingest(m, rows)[q] == m[q]
    {
      IngestLastWriteWins(m, rows, q);
    }
  }

  /** Ingesting the same rows a second time changes nothing. */
  lemma IngestIdempotent(m: Table, rows: seq<seq<string>>)
    ensures Ingest(Ingest(m, rows), rows) == Ingest(m, rows)
  {
    var once := Ingest(m, rows);
    var twice := Ingest(once, rows);
    forall q
      ensures q in twice <==> q in once
      ensures q in once ==> twice[q] == once[q]
    {
      IngestLastWriteWins(m, rows, q);
      IngestLastWriteWins(once, rows, q);
    }
  }

  /** The ingestion loop: rows with at least two cells store row[0] -> row[1]. */
  method IngestRows(m: Table, rows: seq<seq<string>>) returns (r: Table)
    ensures r == Ingest(m, rows)
  {
    r := m;
    for i := 0 to |rows|
      invariant r == Ingest(m, rows[..i])
    {
      assert rows[..i + 1][..i] == rows[..i];
      if |rows[i]| >= 2 {
        r := r[rows[i][0] := rows[i][1]];
      }
    }
    assert rows[..|rows|] == rows;
  }

  /** A load: on success its rows are ingested, on failure the map is left as it was. */
  function IngestRead<E>(m: Table, read: Result<seq<seq<string>>, E>): Table
  {
    if read.Success? then Ingest(m, read.value) else m
  }

  /** Loading again from the same outcome changes nothing. */
  lemma IngestReadIdempotent<E>(m: Table, read: Result<seq<seq<string>>, E>)
    ensures IngestRead(IngestRead(m, read), read) == IngestRead(m, read)
  {
    if read.Success? {
      IngestIdempotent(m, read.value);
    }
  }

  /** p occurs in s at offset i. */
  predicate OccursAt(s: string, p: string, i: nat)
  {
    i + |p| <= |s| && s[i..i + |p|] == p
  }

  /** strings.Contains(s, p). */
  function Contains(s: string, p: string): (b: bool)
    ensures b <==> exists i: nat :: OccursAt(s, p, i)
    decreases |s|
  {
    if OccursAt(s, p, 0) then true
    else if s == [] then false
    else
      var b := Contains(s[1..], p);
      assert forall i: nat :: OccursAt(s[1..], p, i) <==> OccursAt(s, p, i + 1) by {
        forall i: nat ensures OccursAt(s[1..], p, i) <==> OccursAt(s, p, i + 1) {
          if i + 1 + |p| <= |s| {
            assert s[1..][i..i + |p|] == s[i + 1..i + 1 + |p|];
          }
        }
      }
      assert b ==> exists i: nat :: OccursAt(s, p, i) by {
        if b {
          var i: nat :| OccursAt(s[1..], p, i);
          assert OccursAt(s, p, i + 1);
        }
      }
      assert (exists i: nat :: OccursAt(s, p, i)) ==> b by {
        if exists i: nat :: OccursAt(s, p, i) {
          var i: nat :| OccursAt(s, p, i);
          assert i != 0;
          assert OccursAt(s[1..], p, i - 1);
        }
      }
      b
  }

  /** The handlers' match test: the lower-cased question contains the lower-cased query. */
  predicate Matches(question: string, query: string)
  {
    Contains(Text.Lower(question), Text.Lower(query))
  }

  /** Every text contains the empty text, so an empty query matches every question. */
  lemma EmptyQueryMatches(question: string)
    ensures Matches(question, "")
  {
    assert OccursAt(Text.Lower(question), "", 0);
  }

  /**
   * The FindAnswer loop: visits the questions in an unspecified order (Go map
   * iteration) and returns the answer of the first that matches, else "".
   */
  method Lookup(questions: Table, query: string) returns (answer: string)
    ensures (exists q :: q in questions && Matches(q, query))
            ==> exists q :: q in questions && Matches(q, query) && answer == questions[q]
    ensures (forall q :: q in questions ==> !Matches(q, query)) ==> answer == ""
  {
    var rest := questions.Keys;
    while rest != {}
      invariant rest <= questions.Keys
      invariant forall q :: q in questions && q !in rest ==> !Matches(q, query)
      decreases rest
    {
      var q :| q in rest;
      if Matches(q, query) {
        return questions[q];
      }
      rest := rest - {q};
    }
    return "";
  }

  /** The question list and the reverse map searchWithConfidence builds by ranging over a source's question map. */
  method CollectQuestions(table: map<string, string>) returns (questions: seq<string>, questionAnswerMap: map<string, string>)
    ensures forall q :: q in questions <==> q in table
    ensures questionAnswerMap == table
  {
    questions := [];
    questionAnswerMap := map[];
    var rest := table.Keys;
    while rest != {}
      invariant rest <= table.Keys
      invariant forall q :: q in questions <==> q in table && q !in rest
      invariant forall q :: q in questionAnswerMap <==> q in table && q !in rest
      invariant forall q :: q in questionAnswerMap ==> questionAnswerMap[q] == table[q]
      decreases rest
    {
      var question :| question in rest;
      questions := questions + [question];
      questionAnswerMap := questionAnswerMap[question := table[question]];
      rest := rest - {question};
    }
  }

  /** A duplicate-free sequence drawn from a set is no longer than the set. */
  lemma {:induction false} DistinctWithin<T>(s: seq<T>, u: set<T>)
    requires forall i, j :: 0 <= i < j < |s| ==> s[i] != s[j]
    requires forall x :: x in s ==> x in u
    ensures |s| <= |u|
    decreases |s|
  {
    if s != [] {
      var last := s[|s| - 1];
      var init := s[..|s| - 1];
      assert forall x :: x in init ==> x in u - {last} by {
        forall x | x in init
          ensures x in u - {last}
        {
          var k :| 0 <= k < |init| && init[k] == x;
          assert s[k] == x;
        }
      }
      DistinctWithin(init, u - {last});
    }
  }
}
