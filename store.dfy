/** The persistent store: every table the back end touches, held by one
    `Database` object that the operations update in place (the SQLAlchemy
    session of the source). Unique constraints, foreign keys and the
    auto-increment counters are its invariant. */
module Store {
  import opened Models

  class Database {
    var users: map<UserId, User>
    var tests: map<TestId, Test>
    var answers: map<AnswerKey, Answer>
    var results: map<TestId, TestResult>
    var links: set<(ResultId, RecommendationId)>
    var recommendations: map<RecommendationId, Recommendation>
    var questions: map<QuestionId, Question>
    var options: seq<QuestionOption>

    // next value of each auto-increment primary key
    var nextUserId: nat
    var nextTestId: nat
    var nextAnswerId: nat
    var nextResultId: nat
    var nextRecommendationId: nat
    var nextQuestionId: nat
    var nextOptionId: nat

    /** The database's own constraints: unique columns (users.username,
        users.email, questions.question_key), foreign keys that point at
        existing rows, one answer per (test, question), one result per test
        with distinct ids, and primary keys below their sequences. */
    ghost predicate Valid()
      reads this
    {
      Consistent(users, tests, answers, results, links, recommendations, questions, options,
                 nextUserId, nextTestId, nextResultId, nextRecommendationId, nextQuestionId)
    }

    /** What the workflow adds to the constraints: a result exists only for a
        completed test. */
    ghost predicate ResultsFollowCompletion()
      reads this`results, this`tests
    {
      ResultsOfCompletedTests(results, tests)
    }

    constructor ()
      ensures Valid() && ResultsFollowCompletion()
      ensures users == map[] && tests == map[] && answers == map[] && results == map[]
      ensures links == {} && recommendations == map[] && questions == map[] && options == []
    {
      users, tests, answers, results := map[], map[], map[], map[];
      links, recommendations, questions, options := {}, map[], map[], [];
      nextUserId, nextTestId, nextAnswerId, nextResultId := 0, 0, 0, 0;
      nextRecommendationId, nextQuestionId, nextOptionId := 0, 0, 0;
    }
  }

  // The row-level constraints, stated on the tables themselves

  ghost predicate Consistent(users: map<UserId, User>, tests: map<TestId, Test>, answers: map<AnswerKey, Answer>,
                             results: map<TestId, TestResult>, links: set<(ResultId, RecommendationId)>,
                             recommendations: map<RecommendationId, Recommendation>, questions: map<QuestionId, Question>,
                             options: seq<QuestionOption>, nextUserId: nat, nextTestId: nat, nextResultId: nat,
                             nextRecommendationId: nat, nextQuestionId: nat)
  {
    && UniqueUsernames(users) && UniqueEmails(users) && (forall u :: u in users ==> u < nextUserId)
    && TestsReferUsers(tests, nextTestId, users)
    && AnswersReferTests(answers, tests, questions)
    && ResultsReferTests(results, tests, nextResultId)
    && LinksReferRows(links, results, recommendations)
    && (forall r :: r in recommendations ==> r < nextRecommendationId)
    && UniqueQuestionKeys(questions) && (forall q :: q in questions ==> q < nextQuestionId)
    && OptionsReferQuestions(options, questions)
  }

  ghost predicate TestsReferUsers(tests: map<TestId, Test>, nextTestId: nat, users: map<UserId, User>) {
    forall t :: t in tests ==> t < nextTestId && tests[t].userId in users
  }

  ghost predicate AnswersReferTests(answers: map<AnswerKey, Answer>, tests: map<TestId, Test>, questions: map<QuestionId, Question>) {
    forall k :: k in answers ==> k.0 in tests && k.1 in questions
  }

  ghost predicate ResultsReferTests(results: map<TestId, TestResult>, tests: map<TestId, Test>, nextResultId: nat) {
    && (forall t :: t in results ==> t in tests && results[t].id < nextResultId)
    && DistinctResultIds(results)
  }

  ghost predicate LinksReferRows(links: set<(ResultId, RecommendationId)>, results: map<TestId, TestResult>, recommendations: map<RecommendationId, Recommendation>) {
    forall l :: l in links ==> l.0 in ResultIds(results) && l.1 in recommendations
  }

  ghost predicate OptionsReferQuestions(options: seq<QuestionOption>, questions: map<QuestionId, Question>) {
    forall i :: 0 <= i < |options| ==> options[i].questionId in questions
  }

  ghost predicate ResultsOfCompletedTests(results: map<TestId, TestResult>, tests: map<TestId, Test>) {
    forall t :: t in results ==> t in tests && tests[t].status == Completed
  }

  // Cascades: what deleting tests removes with them (app/models/test.py:27-28,
  // app/models/test_result.py:20)

  function AnswersWithoutTests(answers: map<AnswerKey, Answer>, gone: set<TestId>): (r: map<AnswerKey, Answer>)
    ensures forall k :: k in r <==> k in answers && k.0 !in gone
    ensures forall k :: k in r ==> r[k] == answers[k]
  {
    map k | k in answers && k.0 !in gone :: answers[k]
  }

  /** Ids of the results that belong to the tests in `ts`. */
  function ResultIdsOf(results: map<TestId, TestResult>, ts: set<TestId>): set<ResultId> {
    set t | t in results && t in ts :: results[t].id
  }

  function LinksWithoutTests(links: set<(ResultId, RecommendationId)>, results: map<TestId, TestResult>, gone: set<TestId>): (r: set<(ResultId, RecommendationId)>)
    ensures r <= links
    ensures forall l :: l in links ==> (l in r <==> l.0 !in ResultIdsOf(results, gone))
  {
    set l | l in links && l.0 !in ResultIdsOf(results, gone)
  }

  /** Deleting tests keeps every link pointing at a surviving result. */
  lemma {:induction false} CascadeKeepsLinks(links: set<(ResultId, RecommendationId)>, results: map<TestId, TestResult>, gone: set<TestId>)
    requires DistinctResultIds(results)
    requires forall l :: l in links ==> l.0 in ResultIds(results)
    ensures forall l :: l in LinksWithoutTests(links, results, gone) ==> l.0 in ResultIds(results - gone)
  {
    var kept := results - gone;
    forall l | l in LinksWithoutTests(links, results, gone)
      ensures l.0 in ResultIds(kept)
    {
      var t :| t in results && results[t].id == l.0;
      assert l.0 !in ResultIdsOf(results, gone);
      assert t in kept && kept[t].id == l.0;
    }
  }
}
