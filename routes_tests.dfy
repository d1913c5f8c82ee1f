/** The questionnaire endpoints (app/routes/tests.py): starting a test,
    submitting answers one at a time or in a batch, completing a test with a
    prediction, reading the result, listing one's tests and deleting one.
    The current user is the `me` parameter; the prediction service is the
    `predictor` parameter, a function from the request it is sent to what
    came back. */
module RoutesTests {
  import opened Models
  import opened Store
  import opened TestSchemas
  import opened CrudTests
  import MlService
  import CrudRecommendations
  import Listing

  // Guards

  /** The two checks every per-test endpoint makes before anything else:
      the test exists (404), then it belongs to the caller (403). */
  function Guard(tests: map<TestId, Test>, me: UserId, t: TestId): (r: Result<Test, Error>)
    ensures t !in tests ==> r == Err(NotFound(TestMissing))
    ensures t in tests && tests[t].userId != me ==> r == Err(Forbidden(NotOwner))
    ensures r.Ok? <==> t in tests && tests[t].userId == me
    ensures r.Ok? ==> r.value == tests[t]
  {
    if t !in tests then Err(NotFound(TestMissing))
    else if tests[t].userId != me then Err(Forbidden(NotOwner))
    else Ok(tests[t])
  }

  // Counters

  /** The counters the answer endpoints report: the answer rows of the
      test, and how many of the nineteen are still missing. */
  datatype Tally = Tally(totalResponses: nat, remaining: int)

  /** `remaining` is `19 - total` as written: it is not clamped, so a test
      with more than nineteen answer rows reports a negative number. */
  function TallyOf(answers: map<AnswerKey, Answer>, t: TestId): (c: Tally)
    ensures c.totalResponses == AnswerCount(answers, t)
    ensures c.totalResponses + c.remaining == ExpectedResponses
    ensures c.remaining < 0 <==> AnswerCount(answers, t) > ExpectedResponses
  {
    var total := AnswerCount(answers, t);
    Tally(total, ExpectedResponses - total)
  }

  /** A started test as reported: its row and the counter defaults. */
  datatype StartedTest = StartedTest(id: TestId, test: Test, totalResponses: nat, expectedResponses: nat)

  method StartTest(db: Database, me: UserId, data: TestCreate, now: Stamp) returns (r: StartedTest)
    requires db.Valid() && db.ResultsFollowCompletion()
    requires me in db.users && ValidTestCreate(data)
    modifies db`tests, db`nextTestId
    ensures db.Valid() && db.ResultsFollowCompletion()
    ensures r.id !in old(db.tests) && db.tests == old(db.tests)[r.id := r.test]
    ensures r.test == Test(me, data.ciclo, data.genero, data.facultad, data.practicasprepro, InProgress, now, None)
    ensures r.totalResponses == AnswerCount(db.answers, r.id) == DefaultTotalResponses
    ensures r.expectedResponses == ExpectedResponses
  {
    var id := CreateTest(db, me, data, now);
    r := StartedTest(id, db.tests[id], 0, 19);
  }

  // Answers

  /** What submit_response reports: the id of the stored answer row and
      the counters after it. */
  datatype Receipt = Receipt(responseId: AnswerId, tally: Tally)

  method SubmitResponse(db: Database, me: UserId, t: TestId, response: ResponseSubmit) returns (r: Result<Receipt, Error>)
    requires db.Valid() && ValidResponseSubmit(response)
    modifies db`answers, db`nextAnswerId
    ensures db.Valid()
    ensures Guard(db.tests, me, t).Err? ==> r == Err(Guard(db.tests, me, t).error)
    ensures Guard(db.tests, me, t).Ok? && db.tests[t].status != InProgress ==> r == Err(BadRequest(TestAlreadyCompleted))
    ensures Guard(db.tests, me, t).Ok? && db.tests[t].status == InProgress && response.questionId !in db.questions ==>
              r == Err(NotFound(QuestionMissing))
    ensures r.Ok? <==> Guard(db.tests, me, t).Ok? && db.tests[t].status == InProgress && response.questionId in db.questions
    ensures r.Err? ==> db.answers == old(db.answers) && db.nextAnswerId == old(db.nextAnswerId)
    ensures r.Ok? ==>
              var key := (t, response.questionId as QuestionId);
                 && db.answers == Upserted(old(db.answers), old(db.nextAnswerId), key, response.answerValue)
                 && r.value.responseId == db.answers[key].id
                 && r.value.tally == TallyOf(db.answers, t)
                 && r.value.tally.totalResponses == AnswerCount(old(db.answers), t) + (if key in old(db.answers) then 0 else 1)
  {
    var guard := Guard(db.tests, me, t);
    if guard.Err? {
      return Err(guard.error);
    }
    var stored := AddTestResponse(db, t, response);
    if stored.Err? {
      return Err(stored.error);
    }
    UpsertCount(old(db.answers), old(db.nextAnswerId), (t, response.questionId as QuestionId), response.answerValue, t);
    r := Ok(Receipt(stored.value.id, TallyOf(db.answers, t)));
  }

  /** The key item `i` of a batch for test `t` is stored under. */
  function KeyOf(t: TestId, items: seq<ResponseSubmit>, i: nat): AnswerKey
    requires i < |items| && ValidResponseSubmit(items[i])
  {
    (t, items[i].questionId as QuestionId)
  }

  /** The answer table and the answer id sequence after upserting the
      items `lo` .. `hi` - 1 one after the other, in the order given. */
  function ApplyRange(answers: map<AnswerKey, Answer>, nextId: AnswerId, t: TestId, items: seq<ResponseSubmit>, lo: nat, hi: nat)
    : (after: (map<AnswerKey, Answer>, AnswerId))
    requires lo <= hi <= |items|
    requires forall i :: 0 <= i < |items| ==> ValidResponseSubmit(items[i])
    decreases hi - lo
  {
    if lo == hi then (answers, nextId)
    else
      var key := KeyOf(t, items, lo);
      ApplyRange(Upserted(answers, nextId, key, items[lo].answerValue), nextId + (if key in answers then 0 else 1), t, items, lo + 1, hi)
  }

  /** A run of upserts drops no row, and leaves a row that no item of the
      run addresses as it was. */
  lemma {:induction false} ApplyRangeKeeps(answers: map<AnswerKey, Answer>, nextId: AnswerId, t: TestId, items: seq<ResponseSubmit>, lo: nat, hi: nat, k: AnswerKey)
    requires lo <= hi <= |items|
    requires forall i :: 0 <= i < |items| ==> ValidResponseSubmit(items[i])
    requires k in answers
    ensures k in ApplyRange(answers, nextId, t, items, lo, hi).0
    ensures (forall j :: lo <= j < hi ==> KeyOf(t, items, j) != k) ==> ApplyRange(answers, nextId, t, items, lo, hi).0[k] == answers[k]
    decreases hi - lo
  {
    if lo < hi {
      var key := KeyOf(t, items, lo);
      UpsertFacts(answers, nextId, key, items[lo].answerValue);
      ApplyRangeKeeps(Upserted(answers, nextId, key, items[lo].answerValue), nextId + (if key in answers then 0 else 1), t, items, lo + 1, hi, k);
    }
  }

  /** Every item of a run has a row afterwards. */
  lemma {:induction false} ApplyRangeCovers(answers: map<AnswerKey, Answer>, nextId: AnswerId, t: TestId, items: seq<ResponseSubmit>, lo: nat, hi: nat, i: nat)
    requires lo <= i < hi <= |items|
    requires forall i :: 0 <= i < |items| ==> ValidResponseSubmit(items[i])
    ensures KeyOf(t, items, i) in ApplyRange(answers, nextId, t, items, lo, hi).0
    decreases hi - lo
  {
    var key := KeyOf(t, items, lo);
    var m := Upserted(answers, nextId, key, items[lo].answerValue);
    var m' := nextId + (if key in answers then 0 else 1);
    UpsertFacts(answers, nextId, key, items[lo].answerValue);
    if i == lo {
      ApplyRangeKeeps(m, m', t, items, lo + 1, hi, key);
    } else {
      ApplyRangeCovers(m, m', t, items, lo + 1, hi, i);
    }
  }

  /** An item that no later item of the run answers again leaves its value
      stored: an answer given twice keeps the later one. */
  lemma {:induction false} ApplyRangeLastWins(answers: map<AnswerKey, Answer>, nextId: AnswerId, t: TestId, items: seq<ResponseSubmit>, lo: nat, hi: nat, i: nat)
    requires lo <= i < hi <= |items|
    requires forall i :: 0 <= i < |items| ==> ValidResponseSubmit(items[i])
    requires forall j :: i < j < hi ==> items[j].questionId != items[i].questionId
    ensures KeyOf(t, items, i) in ApplyRange(answers, nextId, t, items, lo, hi).0
    ensures ApplyRange(answers, nextId, t, items, lo, hi).0[KeyOf(t, items, i)].value == items[i].answerValue
    decreases hi - lo
  {
    var key := KeyOf(t, items, lo);
    var m := Upserted(answers, nextId, key, items[lo].answerValue);
    var m' := nextId + (if key in answers then 0 else 1);
    UpsertFacts(answers, nextId, key, items[lo].answerValue);
    if i == lo {
      assert forall j :: lo + 1 <= j < hi ==> KeyOf(t, items, j) != key;
      ApplyRangeKeeps(m, m', t, items, lo + 1, hi, key);
    } else {
      ApplyRangeLastWins(m, m', t, items, lo + 1, hi, i);
    }
  }

  /** What a batch leaves behind: every earlier row is still there, other
      tests' rows are untouched, every applied item has a row, and an
      answer given twice keeps the later value. */
  lemma ApplyRangeFacts(answers: map<AnswerKey, Answer>, nextId: AnswerId, t: TestId, items: seq<ResponseSubmit>, n: nat)
    requires n <= |items|
    requires forall i :: 0 <= i < |items| ==> ValidResponseSubmit(items[i])
    ensures var after := ApplyRange(answers, nextId, t, items, 0, n).0;
            && (forall k :: k in answers ==> k in after)
            && (forall k :: k in answers && k.0 != t ==> after[k] == answers[k])
            && (forall i :: 0 <= i < n ==> KeyOf(t, items, i) in after)
            && (forall i :: 0 <= i < n && (forall j :: i < j < n ==> items[j].questionId != items[i].questionId) ==>
                  after[KeyOf(t, items, i)].value == items[i].answerValue)
  {
    var after := ApplyRange(answers, nextId, t, items, 0, n).0;
    forall k | k in answers
      ensures k in after && (k.0 != t ==> after[k] == answers[k])
    {
      ApplyRangeKeeps(answers, nextId, t, items, 0, n, k);
    }
    forall i | 0 <= i < n
      ensures KeyOf(t, items, i) in after
    {
      ApplyRangeCovers(answers, nextId, t, items, 0, n, i);
    }
    forall i | 0 <= i < n && (forall j :: i < j < n ==> items[j].questionId != items[i].questionId)
      ensures after[KeyOf(t, items, i)].value == items[i].answerValue
    {
      ApplyRangeLastWins(answers, nextId, t, items, 0, n, i);
    }
  }

  /** The position of the first item, at `from` or after it, whose
      question does not exist, or the length of `items` when there is none. */
  function FirstUnknownFrom(items: seq<ResponseSubmit>, questions: map<QuestionId, Question>, from: nat): (i: nat)
    requires from <= |items|
    ensures from <= i <= |items|
    ensures forall j :: from <= j < i ==> items[j].questionId in questions
    ensures i < |items| ==> items[i].questionId !in questions
    decreases |items| - from
  {
    if from == |items| then from
    else if items[from].questionId !in questions then from
    else FirstUnknownFrom(items, questions, from + 1)
  }

  /** The position of the first item whose question does not exist, or the
      length of `items` when every question exists. */
  function FirstUnknown(items: seq<ResponseSubmit>, questions: map<QuestionId, Question>): (i: nat)
    ensures i <= |items|
    ensures forall j :: 0 <= j < i ==> items[j].questionId in questions
    ensures i < |items| ==> items[i].questionId !in questions
  {
    FirstUnknownFrom(items, questions, 0)
  }

  /** One turn of the loop of submit_responses_batch: the upsert of item
      `i`. `stop` is where the loop will end and `final` what the table and
      the sequence will be by then. */
  method ApplyItem(db: Database, t: TestId, items: seq<ResponseSubmit>, i: nat,
                   ghost stop: nat, ghost final: (map<AnswerKey, Answer>, AnswerId))
    returns (r: Result<Answer, Error>)
    requires db.Valid() && t in db.tests && i < |items|
    requires forall j :: 0 <= j < |items| ==> ValidResponseSubmit(items[j])
    requires stop == FirstUnknown(items, db.questions) && i <= stop
    requires ApplyRange(db.answers, db.nextAnswerId, t, items, i, stop) == final
    modifies db`answers, db`nextAnswerId
    ensures db.Valid()
    ensures r.Ok? ==>
              && db.tests[t].status == InProgress && i < stop
              && ApplyRange(db.answers, db.nextAnswerId, t, items, i + 1, stop) == final
    ensures r.Err? ==>
              && db.answers == old(db.answers) && db.nextAnswerId == old(db.nextAnswerId)
              && (db.tests[t].status != InProgress ==> r.error == BadRequest(TestAlreadyCompleted))
              && (db.tests[t].status == InProgress ==> i == stop && r.error == NotFound(QuestionMissing))
  {
    r := AddTestResponse(db, t, items[i]);
  }

  /** The loop of submit_responses_batch: each item through the same upsert
      as a single answer, in the caller's order. Each upsert commits on its
      own, so the first failing item ends the loop and the items before it
      stay stored. */
  method ApplyBatch(db: Database, t: TestId, items: seq<ResponseSubmit>) returns (r: Result<(), Error>)
    requires db.Valid() && t in db.tests && |items| >= 1
    requires forall i :: 0 <= i < |items| ==> ValidResponseSubmit(items[i])
    modifies db`answers, db`nextAnswerId
    ensures db.Valid()
    ensures db.tests[t].status != InProgress ==>
              r == Err(BadRequest(TestAlreadyCompleted)) && db.answers == old(db.answers) && db.nextAnswerId == old(db.nextAnswerId)
    ensures db.tests[t].status == InProgress ==>
              var stop := FirstUnknown(items, db.questions);
              && (db.answers, db.nextAnswerId) == ApplyRange(old(db.answers), old(db.nextAnswerId), t, items, 0, stop)
              && (r.Err? <==> stop < |items|)
              && (r.Err? ==> r.error == NotFound(QuestionMissing))
  {
    ghost var stop := FirstUnknown(items, db.questions);
    ghost var final := ApplyRange(db.answers, db.nextAnswerId, t, items, 0, stop);
    var i := 0;
    while i < |items|
      invariant 0 <= i <= stop
      invariant db.Valid()
      invariant db.tests[t].status != InProgress ==> i == 0 && db.answers == old(db.answers) && db.nextAnswerId == old(db.nextAnswerId)
      invariant ApplyRange(db.answers, db.nextAnswerId, t, items, i, stop) == final
    {
      var stored := ApplyItem(db, t, items, i, stop, final);
      if stored.Err? {
        assert db.tests[t].status == InProgress ==> i == stop && final == (db.answers, db.nextAnswerId);
        return Err(stored.error);
      }
      i := i + 1;
    }
    assert final == (db.answers, db.nextAnswerId);
    r := Ok(());
  }

  /** submit_responses_batch: the guards, the loop, then the counters. */
  method SubmitResponsesBatch(db: Database, me: UserId, t: TestId, batch: ResponsesBatch) returns (r: Result<Tally, Error>)
    requires db.Valid() && ValidBatch(batch)
    modifies db`answers, db`nextAnswerId
    ensures db.Valid()
    ensures Guard(db.tests, me, t).Err? ==>
              r == Err(Guard(db.tests, me, t).error) && db.answers == old(db.answers) && db.nextAnswerId == old(db.nextAnswerId)
    ensures Guard(db.tests, me, t).Ok? && db.tests[t].status != InProgress ==>
              r == Err(BadRequest(TestAlreadyCompleted)) && db.answers == old(db.answers) && db.nextAnswerId == old(db.nextAnswerId)
    ensures Guard(db.tests, me, t).Ok? && db.tests[t].status == InProgress ==>
              var stop := FirstUnknown(batch.responses, db.questions);
              && (db.answers, db.nextAnswerId) == ApplyRange(old(db.answers), old(db.nextAnswerId), t, batch.responses, 0, stop)
              && (stop < |batch.responses| ==> r == Err(NotFound(QuestionMissing)))
              && (stop == |batch.responses| ==> r == Ok(TallyOf(db.answers, t)))
  {
    var guard := Guard(db.tests, me, t);
    if guard.Err? {
      return Err(guard.error);
    }
    var applied := ApplyBatch(db, t, batch.responses);
    if applied.Err? {
      return Err(applied.error);
    }
    r := Ok(TallyOf(db.answers, t));
  }

  // Completion

  /** The `test_data` dictionary the request is built from. */
  function TestData(test: Test): MlService.Demographics {
    MlService.Demographics(test.ciclo, test.genero, test.facultad, test.practicasprepro)
  }

  /** `resultado == "SI"` is the positive class; every other string,
      including "S" and "N", is the negative one. */
  function PredictionOf(resultado: string): (p: Prediction)
    ensures p == S <==> resultado == "SI"
  {
    if resultado == "SI" then S else N
  }

  /** The TestResultCreate built from the service's answer. */
  function Draft(t: TestId, resp: MlService.MLPredictionResponse): (c: ResultCreate)
    ensures c.testId == t && c.probability == resp.probabilidad && c.modelVersion == resp.modelVersion
    ensures c.prediction == S <==> resp.resultado == "SI"
  {
    ResultCreate(t, PredictionOf(resp.resultado), resp.probabilidad, resp.modelVersion)
  }

  /** A result as the result endpoints report it: the row and the
      recommendations linked to it. */
  datatype ResultDetail = ResultDetail(result: TestResult, recommendations: set<RecommendationId>)

  /** The recommendations linked to a result. */
  function LinkedTo(links: set<(ResultId, RecommendationId)>, resultId: ResultId): (recs: set<RecommendationId>)
    ensures forall id :: id in recs <==> (resultId, id) in links
  {
    set l | l in links && l.0 == resultId :: l.1
  }

  /** The stored result of a test with its recommendations, if it has one. */
  function ResultDetailOf(db: Database, t: TestId): (d: Option<ResultDetail>)
    requires db.Valid()
    reads db
    ensures d.Some? <==> t in db.results
    ensures d.Some? ==> d.value.result == db.results[t] && d.value.recommendations <= db.recommendations.Keys
    ensures d.Some? ==> forall id :: id in d.value.recommendations <==> (db.results[t].id, id) in db.links
  {
    if t in db.results then Some(ResultDetail(db.results[t], LinkedTo(db.links, db.results[t].id))) else None
  }

  /** Every link refers to a result id below the result id sequence. */
  lemma LinksBelowNextResult(db: Database)
    requires db.Valid()
    ensures forall l :: l in db.links ==> l.0 < db.nextResultId
  {
    forall l | l in db.links
      ensures l.0 < db.nextResultId
    {
      var owner :| owner in db.results && db.results[owner].id == l.0;
    }
  }

  /** The result a valid answer of the service becomes: the next result id,
      the mapped prediction, the probability and version as received, and
      the active recommendations of the predicted polarity. */
  function Recorded(resultId: ResultId, resp: MlService.MLPredictionResponse, now: Stamp, recs: map<RecommendationId, Recommendation>): (d: ResultDetail)
    ensures d.result.id == resultId && d.result.probability == resp.probabilidad && d.result.modelVersion == resp.modelVersion
    ensures d.result.prediction == S <==> resp.resultado == "SI"
    ensures forall id :: id in d.recommendations <==>
              id in recs && recs[id].active && recs[id].forPositiveResult == (resp.resultado == "SI")
  {
    var prediction := PredictionOf(resp.resultado);
    ResultDetail(TestResult(resultId, prediction, resp.probabilidad, resp.modelVersion, now),
                 CrudRecommendations.ActiveRecommendations(recs, prediction == S))
  }

  /** What complete_test answers once the request is out: the service's
      error as translated, a 500 when its answer does not validate as a
      TestResultCreate, or the recorded result. */
  function CompletionOutcome(t: TestId, outcome: Result<MlService.MLPredictionResponse, Error>, resultId: ResultId, now: Stamp,
                             recs: map<RecommendationId, Recommendation>): (r: Result<ResultDetail, Error>)
    ensures r.Ok? <==> outcome.Ok? && ValidResultCreate(Draft(t, outcome.value))
    ensures outcome.Err? ==> r == Err(outcome.error)
    ensures r.Ok? ==> r.value == Recorded(resultId, outcome.value, now, recs)
  {
    if outcome.Err? then Err(outcome.error)
    else if !ValidResultCreate(Draft(t, outcome.value)) then Err(InternalError(InvalidPrediction))
    else Ok(Recorded(resultId, outcome.value, now, recs))
  }

  /** The part of complete_test after the predictor call: relay the
      service's error, or validate its answer into a TestResultCreate, store the result, then
      assign the recommendations. On a freshly completed test the store and
      the assignment cannot fail. */
  method RecordOutcome(db: Database, t: TestId, outcome: Result<MlService.MLPredictionResponse, Error>, now: Stamp)
    returns (r: Result<ResultDetail, Error>)
    requires db.Valid() && db.ResultsFollowCompletion()
    requires t in db.tests && db.tests[t].status == Completed && t !in db.results
    modifies db`results, db`nextResultId, db`links
    ensures db.Valid() && db.ResultsFollowCompletion()
    ensures r == CompletionOutcome(t, outcome, old(db.nextResultId), now, db.recommendations)
    ensures r.Err? ==> db.results == old(db.results) && db.nextResultId == old(db.nextResultId) && db.links == old(db.links)
    ensures r.Ok? ==>
              && db.results == old(db.results)[t := r.value.result]
              && db.links == old(db.links) + LinksFor(r.value.result.id, r.value.recommendations)
              && ResultDetailOf(db, t) == Some(r.value)
  {
    if outcome.Err? {
      return Err(outcome.error);
    }
    var data := Draft(t, outcome.value);
    if !ValidResultCreate(data) {
      return Err(InternalError(InvalidPrediction));
    }
    LinksBelowNextResult(db);
    var created := CreateTestResult(db, data, now);
    if created.Err? {
      assert false;
    }
    var result := created.value;
    assert db.results[t].id == result.id;
    var chosen := AssignRecommendations(db, result.id, result.prediction);
    if chosen.Err? {
      assert false;
    }
    assert LinkedTo(db.links, result.id) == chosen.value;
    r := Ok(ResultDetail(result, chosen.value));
  }

  /** The first check of complete_test that fails, if any: the guards,
      then an already completed test, then fewer answers than expected. */
  function CompletionRefusal(tests: map<TestId, Test>, answers: map<AnswerKey, Answer>, me: UserId, t: TestId): Option<Error> {
    var guard := Guard(tests, me, t);
    if guard.Err? then Some(guard.error)
    else if tests[t].status == Completed then Some(BadRequest(TestAlreadyCompleted))
    else if AnswerCount(answers, t) < ExpectedResponses then Some(BadRequest(Incomplete(ExpectedResponses, AnswerCount(answers, t))))
    else None
  }

  /** The refusals of complete_test, case by case: 404 for a missing test,
      403 for someone else's, 400 for a completed one, 400 with the counts
      for an incomplete one, and none once all nineteen answers are in. */
  lemma CompletionRefusalCases(tests: map<TestId, Test>, answers: map<AnswerKey, Answer>, me: UserId, t: TestId)
    ensures t !in tests ==> CompletionRefusal(tests, answers, me, t) == Some(NotFound(TestMissing))
    ensures t in tests && tests[t].userId != me ==> CompletionRefusal(tests, answers, me, t) == Some(Forbidden(NotOwner))
    ensures Guard(tests, me, t).Ok? && tests[t].status == Completed ==>
              CompletionRefusal(tests, answers, me, t) == Some(BadRequest(TestAlreadyCompleted))
    ensures Guard(tests, me, t).Ok? && tests[t].status == InProgress && AnswerCount(answers, t) < ExpectedResponses ==>
              CompletionRefusal(tests, answers, me, t) == Some(BadRequest(Incomplete(ExpectedResponses, AnswerCount(answers, t))))
    ensures CompletionRefusal(tests, answers, me, t).None? <==>
              t in tests && tests[t].userId == me && tests[t].status == InProgress && AnswerCount(answers, t) >= ExpectedResponses
  {
  }

  /** The request complete_test sends for a test: its demographics and the
      answers of its questions, keyed by question key. */
  function CompletionRequest(test: Test, answers: map<AnswerKey, Answer>, questions: map<QuestionId, Question>, t: TestId)
    : MlService.MLPredictionRequest
    requires UniqueQuestionKeys(questions)
  {
    MlService.BuildPredictionRequest(TestData(test), ResponsesAsDict(answers, questions, t))
  }

  /** The part of complete_test before the predictor call: the guards,
      the completion gate, which commits COMPLETED at once, and the request built from the test
      and its answers. */
  method PrepareCompletion(db: Database, me: UserId, t: TestId, now: Stamp) returns (r: Result<MlService.MLPredictionRequest, Error>)
    requires db.Valid() && db.ResultsFollowCompletion()
    modifies db`tests
    ensures db.Valid() && db.ResultsFollowCompletion()
    ensures r.Err? <==> CompletionRefusal(old(db.tests), old(db.answers), me, t).Some?
    ensures r.Err? ==> r.error == CompletionRefusal(old(db.tests), old(db.answers), me, t).value && db.tests == old(db.tests)
    ensures r.Ok? ==>
              && r.value == CompletionRequest(old(db.tests[t]), old(db.answers), old(db.questions), t)
              && db.tests == old(db.tests)[t := old(db.tests[t]).(status := Completed, completedAt := Some(now))]
              && t !in db.results
  {
    ghost var refusal := CompletionRefusal(db.tests, db.answers, me, t);
    CompletionRefusalCases(db.tests, db.answers, me, t);
    var guard := Guard(db.tests, me, t);
    if guard.Err? {
      assert refusal == Some(guard.error);
      return Err(guard.error);
    }
    var completed := CompleteTest(db, t, ExpectedResponses, now);
    if completed.Err? {
      assert refusal == Some(completed.error);
      return Err(completed.error);
    }
    assert refusal.None?;
    r := Ok(CompletionRequest(completed.value, db.answers, db.questions, t));
  }

  /** complete_test: the request is prepared (guards, gate, build), sent to
      the prediction service, and its answer recorded with the
      recommendations. `sent` is the request the service received, `None`
      when the endpoint failed before calling it. Once sent, the test stays
      COMPLETED whatever the service does, and it has a result exactly when
      the endpoint succeeds. */
  method CompleteTestRoute(db: Database, me: UserId, t: TestId, predictor: MlService.MLPredictionRequest -> MlService.Exchange, now: Stamp)
    returns (r: Result<ResultDetail, Error>, sent: Option<MlService.MLPredictionRequest>)
    requires db.Valid() && db.ResultsFollowCompletion()
    modifies db`tests, db`results, db`nextResultId, db`links
    ensures db.Valid() && db.ResultsFollowCompletion()
    ensures sent.None? <==> CompletionRefusal(old(db.tests), old(db.answers), me, t).Some?
    ensures sent.None? ==> r == Err(CompletionRefusal(old(db.tests), old(db.answers), me, t).value) && db.tests == old(db.tests)
    ensures sent.Some? ==>
              && sent.value == CompletionRequest(old(db.tests[t]), old(db.answers), old(db.questions), t)
              && db.tests == old(db.tests)[t := old(db.tests[t]).(status := Completed, completedAt := Some(now))]
              && r == CompletionOutcome(t, MlService.Predict(predictor(sent.value)), old(db.nextResultId), now, db.recommendations)
              && (t in db.results <==> r.Ok?)
    ensures r.Err? ==> db.results == old(db.results) && db.links == old(db.links)
    ensures r.Ok? ==>
              && db.results == old(db.results)[t := r.value.result]
              && db.links == old(db.links) + LinksFor(r.value.result.id, r.value.recommendations)
              && ResultDetailOf(db, t) == Some(r.value)
  {
    var prepared := PrepareCompletion(db, me, t, now);
    if prepared.Err? {
      return Err(prepared.error), None;
    }
    sent := Some(prepared.value);
    r := RecordOutcome(db, t, MlService.Predict(predictor(prepared.value)), now);
  }

  /** The gate counts answer rows and nothing else: when no answer of the
      test is to a question keyed pregunta1..pregunta19, the request still
      goes out, with every answer field empty. */
  lemma GateIgnoresQuestionKeys(answers: map<AnswerKey, Answer>, questions: map<QuestionId, Question>, t: TestId, test: Test)
    requires UniqueQuestionKeys(questions)
    requires forall q :: (t, q) in answers && q in questions ==> !MlService.IsQuestionKey(questions[q].key)
    ensures forall k :: 1 <= k <= MlService.QuestionCount ==>
              MlService.Pregunta(MlService.BuildPredictionRequest(TestData(test), ResponsesAsDict(answers, questions, t)).respuestas, k) == ""
  {
    var d := ResponsesAsDict(answers, questions, t);
    forall k | 1 <= k <= MlService.QuestionCount
      ensures MlService.QuestionKey(k) !in d
    {
    }
  }

  // Reading

  /** get_test_result: the guards, then 404 while the test has no result. */
  function GetTestResultRoute(db: Database, me: UserId, t: TestId): (r: Result<ResultDetail, Error>)
    requires db.Valid()
    reads db
    ensures Guard(db.tests, me, t).Err? ==> r == Err(Guard(db.tests, me, t).error)
    ensures Guard(db.tests, me, t).Ok? && t !in db.results ==> r == Err(NotFound(ResultMissing))
    ensures r.Ok? <==> Guard(db.tests, me, t).Ok? && t in db.results
    ensures r.Ok? ==> Some(r.value) == ResultDetailOf(db, t)
  {
    var guard := Guard(db.tests, me, t);
    if guard.Err? then Err(guard.error)
    else match ResultDetailOf(db, t)
      case None => Err(NotFound(ResultMissing))
      case Some(detail) => Ok(detail)
  }

  /** What a completed request later reads back: the same result with the
      same recommendations. */
  lemma CompletedResultReadsBack(db: Database, me: UserId, t: TestId, detail: ResultDetail)
    requires db.Valid()
    requires Guard(db.tests, me, t).Ok? && ResultDetailOf(db, t) == Some(detail)
    ensures GetTestResultRoute(db, me, t) == Ok(detail)
  {
  }

  /** The filter of get_user_tests: the caller's own tests. */
  function Mine(me: UserId): Test -> bool {
    (x: Test) => x.userId == me
  }

  /** The rank of `order_by(created_at.desc())`. */
  function ByNewest(x: Test): int {
    -x.createdAt
  }

  /** get_user_tests: the caller's tests, newest first, then the page. */
  function UserTests(tests: map<TestId, Test>, me: UserId, skip: nat, limit: nat): (rows: seq<Listing.Row<Test>>)
    ensures Listing.IsPage(rows, Listing.Ordered(tests, Mine(me), ByNewest), skip, limit)
    ensures |rows| <= limit
    ensures forall row :: row in rows ==> row.0 in tests && row.1 == tests[row.0] && row.1.userId == me
    ensures forall i, j :: 0 <= i < j < |rows| ==> rows[i].1.createdAt >= rows[j].1.createdAt
    ensures skip == 0 && limit >= |tests| ==>
              forall t :: t in tests && tests[t].userId == me ==> (t, tests[t]) in rows
  {
    Listing.QueryFacts(tests, Mine(me), ByNewest, skip, limit);
    Listing.OrderedFacts(tests, Mine(me), ByNewest);
    Listing.Query(tests, Mine(me), ByNewest, skip, limit)
  }

  /** One entry of the caller's history. */
  datatype TestListItem = TestListItem(id: TestId, test: Test, hasResult: bool)

  /** The loop of get_my_tests: one entry per row, marked with whether the
      test has a result. */
  method MarkResults(rows: seq<Listing.Row<Test>>, results: map<TestId, TestResult>) returns (items: seq<TestListItem>)
    ensures |items| == |rows|
    ensures forall i :: 0 <= i < |items| ==> items[i] == TestListItem(rows[i].0, rows[i].1, rows[i].0 in results)
  {
    items := [];
    var i := 0;
    while i < |rows|
      invariant 0 <= i <= |rows|
      invariant |items| == i
      invariant forall j :: 0 <= j < i ==> items[j] == TestListItem(rows[j].0, rows[j].1, rows[j].0 in results)
    {
      var hasResult := GetTestResult(results, rows[i].0).Some?;
      items := items + [TestListItem(rows[i].0, rows[i].1, hasResult)];
      i := i + 1;
    }
  }

  /** get_my_tests: the page of the caller's tests, each marked with whether
      it has a result; only completed tests can. */
  method GetMyTests(db: Database, me: UserId, skip: nat, limit: nat) returns (items: seq<TestListItem>)
    requires db.Valid() && db.ResultsFollowCompletion()
    ensures var rows := UserTests(db.tests, me, skip, limit);
            && |items| == |rows|
            && forall i :: 0 <= i < |items| ==> items[i] == TestListItem(rows[i].0, rows[i].1, rows[i].0 in db.results)
    ensures forall i :: 0 <= i < |items| ==> items[i].test.userId == me
    ensures forall i :: 0 <= i < |items| && items[i].hasResult ==> items[i].test.status == Completed
  {
    var rows := UserTests(db.tests, me, skip, limit);
    items := MarkResults(rows, db.results);
    forall j | 0 <= j < |items|
      ensures items[j].test.userId == me
      ensures items[j].hasResult ==> items[j].test.status == Completed
    {
      assert rows[j] in rows;
    }
  }

  // Deleting

  /** delete_test: the guards, then the delete with its cascade. */
  method DeleteTestRoute(db: Database, me: UserId, t: TestId) returns (r: Result<(), Error>)
    requires db.Valid() && db.ResultsFollowCompletion()
    modifies db`tests, db`answers, db`results, db`links
    ensures db.Valid() && db.ResultsFollowCompletion()
    ensures r.Err? <==> Guard(old(db.tests), me, t).Err?
    ensures r.Err? ==>
              && r.error == Guard(old(db.tests), me, t).error
              && db.tests == old(db.tests) && db.answers == old(db.answers) && db.results == old(db.results) && db.links == old(db.links)
    ensures r.Ok? ==>
              && db.tests == old(db.tests) - {t}
              && db.answers == AnswersWithoutTests(old(db.answers), {t})
              && db.results == old(db.results) - {t}
              && db.links == LinksWithoutTests(old(db.links), old(db.results), {t})
  {
    var guard := Guard(db.tests, me, t);
    if guard.Err? {
      return Err(guard.error);
    }
    var _ := DeleteTest(db, t);
    r := Ok(());
  }
}
