/**
 The `request_evaluations` table: one score per (request, question) pair,
 enforced by a unique index, with rows removed in cascade when their request,
 question or evaluator is deleted.
 */
module Evaluations {
  import opened Results
  import opened Requests

  type QuestionId = nat

  /** One row of `request_evaluations`. The evaluator is mandatory and the notes optional. */
  datatype Evaluation = Evaluation(
    request: RequestId,
    question: QuestionId,
    evaluatedBy: UserId,
    score: int,
    notes: Option<string>)

  /** The bounds of the signed 32-bit `integer` column type that holds `score`. */
  const IntMin: int := -0x8000_0000
  const IntMax: int := 0x7FFF_FFFF

  /** The score fits the column; nothing narrows it to 0..100. */
  predicate ScoreFits(score: int) {
    IntMin <= score <= IntMax
  }

  /** The ids present in the three parent tables: `requests`, `evaluation_questions` and `users`. */
  datatype Parents = Parents(requests: set<RequestId>, questions: set<QuestionId>, users: set<UserId>)

  /** Each of the row's three foreign keys names an existing parent row. */
  predicate HasParents(p: Parents, e: Evaluation) {
    e.request in p.requests && e.question in p.questions && e.evaluatedBy in p.users
  }

  /** The columns of the `request_question_unique` index. */
  predicate SameKey(a: Evaluation, b: Evaluation) {
    a.request == b.request && a.question == b.question
  }

  /** No two rows share a (request, question) pair. */
  predicate UniqueKeys(rows: seq<Evaluation>) {
    forall i, j :: 0 <= i < j < |rows| ==> !SameKey(rows[i], rows[j])
  }

  /** The row holding the score of `question` for `request`, if there is one. */
  function Find(rows: seq<Evaluation>, request: RequestId, question: QuestionId): (r: Option<Evaluation>)
    ensures r.Some? ==> r.value in rows && r.value.request == request && r.value.question == question
    ensures r.None? <==> forall e :: e in rows ==> !(e.request == request && e.question == question)
  {
    if |rows| == 0 then None
    else if rows[0].request == request && rows[0].question == question then Some(rows[0])
    else
      assert forall e :: e in rows <==> e == rows[0] || e in rows[1..];
      Find(rows[1..], request, question)
  }

  /** Looking a key up after appending a row: earlier rows win, then the new row, else nothing. */
  lemma {:induction false} FindAppend(rows: seq<Evaluation>, e: Evaluation, request: RequestId, question: QuestionId)
    ensures Find(rows + [e], request, question) ==
              if Find(rows, request, question).Some? then Find(rows, request, question)
              else if e.request == request && e.question == question then Some(e)
              else None
  {
    if |rows| > 0 {
      assert (rows + [e])[1..] == rows[1..] + [e];
      FindAppend(rows[1..], e, request, question);
    }
  }

  /** `FindAppend` for every key at once. */
  lemma FindAppendAll(rows: seq<Evaluation>, e: Evaluation)
    ensures forall request, question :: Find(rows + [e], request, question) ==
              if Find(rows, request, question).Some? then Find(rows, request, question)
              else if e.request == request && e.question == question then Some(e)
              else None
  {
    forall request, question {
      FindAppend(rows, e, request, question);
    }
  }

  /**
   Inserting a row. The column refuses a score outside its range, the foreign
   keys refuse a row whose request, question or evaluator does not exist, and
   the unique index refuses a second row for a pair that is already scored;
   when several apply, the error reported follows that order, which is this
   model's choice. Otherwise the new row is the one found under its pair and
   every other pair reads as before.
   */
  function Insert(p: Parents, rows: seq<Evaluation>, e: Evaluation): (r: Result<seq<Evaluation>>)
    ensures r.Ok? <==> ScoreFits(e.score) && HasParents(p, e) && Find(rows, e.request, e.question).None?
    ensures !ScoreFits(e.score) ==> r == Err(OutOfRange)
    ensures ScoreFits(e.score) && !HasParents(p, e) ==> r == Err(MissingParent)
    ensures ScoreFits(e.score) && HasParents(p, e) && Find(rows, e.request, e.question).Some? ==> r == Err(DuplicateKey)
    ensures r.Ok? ==> Find(r.value, e.request, e.question) == Some(e)
    ensures r.Ok? ==> forall request, question :: !(request == e.request && question == e.question) ==>
                        Find(r.value, request, question) == Find(rows, request, question)
    ensures r.Ok? && UniqueKeys(rows) ==> UniqueKeys(r.value)
  {
    if !ScoreFits(e.score) then Err(OutOfRange)
    else if !HasParents(p, e) then Err(MissingParent)
    else if Find(rows, e.request, e.question).Some? then Err(DuplicateKey)
    else
      FindAppendAll(rows, e);
      var r := rows + [e];
      assert forall i :: 0 <= i < |rows| ==> r[i] == rows[i] && rows[i] in rows;
      Ok(r)
  }

  /** A table built by inserts alone never holds two rows for one pair. */
  lemma InsertsKeepKeysUnique(p: Parents, rows: seq<Evaluation>, e: Evaluation)
    requires UniqueKeys(rows)
    requires Insert(p, rows, e).Ok?
    ensures UniqueKeys(Insert(p, rows, e).value)
    ensures |Insert(p, rows, e).value| == |rows| + 1
  {
  }

  /**
   With its parents present, a first score for a pair is stored exactly when it
   fits a signed 32-bit integer, and it reads back unchanged; scores outside
   0..100 are among those stored.
   */
  lemma ScoreRange(p: Parents, request: RequestId, question: QuestionId, evaluator: UserId, score: int)
    requires request in p.requests && question in p.questions && evaluator in p.users
    ensures Insert(p, [], Evaluation(request, question, evaluator, score, None)).Ok? <==> IntMin <= score <= IntMax
    ensures Insert(p, [], Evaluation(request, question, evaluator, score, None)).Ok? ==>
              Find(Insert(p, [], Evaluation(request, question, evaluator, score, None)).value, request, question).value.score == score
  {
  }

  /** The three foreign keys of the table, each declared with `onDelete('cascade')`. */
  datatype Cascade =
    | RequestDeleted(request: RequestId)
    | QuestionDeleted(question: QuestionId)
    | EvaluatorDeleted(user: UserId)

  /** Whether deleting the parent row removes this evaluation. */
  predicate Hits(c: Cascade, e: Evaluation) {
    match c
    case RequestDeleted(request) => e.request == request
    case QuestionDeleted(question) => e.question == question
    case EvaluatorDeleted(user) => e.evaluatedBy == user
  }

  /** The rows that survive the deletion of a parent row, in their original order. */
  function CascadeDelete(rows: seq<Evaluation>, c: Cascade): (r: seq<Evaluation>)
    ensures forall e :: e in r <==> e in rows && !Hits(c, e)
    ensures |r| <= |rows|
    ensures UniqueKeys(rows) ==> UniqueKeys(r)
  {
    if |rows| == 0 then []
    else
      var rest := CascadeDelete(rows[1..], c);
      assert forall e :: e in rows <==> e == rows[0] || e in rows[1..];
      assert UniqueKeys(rows) ==> UniqueKeys(rows[1..]) by {
        if UniqueKeys(rows) {
          forall i, j | 0 <= i < j < |rows| - 1
            ensures !SameKey(rows[1..][i], rows[1..][j])
          {
            assert rows[1..][i] == rows[i + 1] && rows[1..][j] == rows[j + 1];
          }
        }
      }
      if Hits(c, rows[0]) then rest
      else
        var r := [rows[0]] + rest;
        assert UniqueKeys(rows) ==> UniqueKeys(r) by {
          if UniqueKeys(rows) {
            forall i, j | 0 <= i < j < |r|
              ensures !SameKey(r[i], r[j])
            {
              if i == 0 {
                assert r[j] in rows[1..];
                var m :| 0 <= m < |rows| - 1 && rows[1..][m] == r[j];
                assert rows[m + 1] == r[j];
              } else {
                assert r[i] == rest[i - 1] && r[j] == rest[j - 1];
              }
            }
          }
        }
        r
  }

  /** Whether a cascade removes every row of one (request, question) pair. */
  predicate HitsPair(c: Cascade, request: RequestId, question: QuestionId) {
    match c
    case RequestDeleted(r) => r == request
    case QuestionDeleted(q) => q == question
    case EvaluatorDeleted(_) => false
  }

  /**
   Deleting a request or a question removes exactly the scores of that request
   or question: those pairs read as missing afterwards, every other pair reads
   as before.
   */
  lemma {:induction false} CascadeLookup(rows: seq<Evaluation>, c: Cascade, request: RequestId, question: QuestionId)
    requires !c.EvaluatorDeleted?
    ensures Find(CascadeDelete(rows, c), request, question) ==
              if HitsPair(c, request, question) then None else Find(rows, request, question)
  {
    if |rows| > 0 {
      CascadeLookup(rows[1..], c, request, question);
    }
  }

  /** Deleting a request and deleting a question commute. */
  lemma {:induction false} CascadesCommute(rows: seq<Evaluation>, request: RequestId, question: QuestionId)
    ensures CascadeDelete(CascadeDelete(rows, RequestDeleted(request)), QuestionDeleted(question)) ==
            CascadeDelete(CascadeDelete(rows, QuestionDeleted(question)), RequestDeleted(request))
  {
    if |rows| > 0 {
      CascadesCommute(rows[1..], request, question);
    }
  }
}
