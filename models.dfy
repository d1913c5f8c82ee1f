/** Rows of the questionnaire back end's tables, the enumerations they use,
    the error kinds its endpoints raise, and the table-wide unique
    constraints of the ORM models. */
module Models {

  datatype Option<+T> = None | Some(value: T)

  datatype Result<+T, +E> = Ok(value: T) | Err(error: E)

  type UserId = nat
  type TestId = nat
  type QuestionId = nat
  type ResultId = nat
  type RecommendationId = nat
  type OptionId = nat
  type AnswerId = nat

  /** A reading of the server clock (created_at, completed_at, predicted_at). */
  type Stamp = int

  /** The model's probability is a float passed through unexamined. */
  type Probability = real

  datatype UserRole = Regular | Admin

  datatype TestStatus = InProgress | Completed

  /** PredictionResult: S ("SI", needs recommendations) or N ("N"). */
  datatype Prediction = S | N

  datatype Test = Test(
    userId: UserId,
    ciclo: int,
    genero: string,
    facultad: string,
    practicasprepro: string,
    status: TestStatus,
    createdAt: Stamp,
    completedAt: Option<Stamp>)

  /** One row of test_responses, stored under its (test, question) pair. */
  datatype Answer = Answer(id: AnswerId, value: string)

  type AnswerKey = (TestId, QuestionId)

  /** One row of test_results, stored under the test it belongs to. */
  datatype TestResult = TestResult(
    id: ResultId,
    prediction: Prediction,
    probability: Probability,
    modelVersion: string,
    predictedAt: Stamp)

  datatype Recommendation = Recommendation(
    title: string,
    description: string,
    category: Option<string>,
    forPositiveResult: bool,
    active: bool,
    createdAt: Stamp)

  datatype Question = Question(
    key: string,
    text: string,
    category: Option<string>,
    order: int,
    active: bool)

  datatype QuestionOption = QuestionOption(
    id: OptionId,
    questionId: QuestionId,
    text: string,
    value: string,
    order: int)

  /** What the password hasher produced; a plain password is never stored. */
  datatype PasswordHash = PasswordHash(encoded: string)

  datatype User = User(
    username: string,
    email: string,
    password: PasswordHash,
    role: UserRole,
    name: string,
    lastname: string,
    phone: string,
    active: bool)

  datatype Missing = TestMissing | QuestionMissing | ResultMissing | UserMissing | RecommendationMissing

  datatype Reason =
    | TestAlreadyCompleted
    | Incomplete(required: nat, actual: nat)
    | ResultExists
    | DuplicateQuestionKey
    | UsernameTaken
    | EmailTaken
    | SelfDeletion

  datatype Denial = NotOwner | InactiveUser

  datatype Cause =
    | UnexpectedPredictorFailure  // any other exception while predicting
    | IntegrityViolation          // the database refused the commit
    | InvalidPrediction           // the predictor's answer fails TestResultCreate

  /** The HTTP errors the endpoints raise; `StatusCode` gives their codes. */
  datatype Error =
    | NotFound(missing: Missing)
    | BadRequest(reason: Reason)
    | Forbidden(denial: Denial)
    | Unauthorized
    | GatewayTimeout
    | ServiceUnavailable(upstream: Option<int>)
    | InternalError(cause: Cause)

  function StatusCode(e: Error): (code: int)
    ensures 400 <= code < 600
    ensures code >= 500 <==> e.GatewayTimeout? || e.ServiceUnavailable? || e.InternalError?
  {
    match e
    case NotFound(_) => 404
    case BadRequest(_) => 400
    case Forbidden(_) => 403
    case Unauthorized => 401
    case GatewayTimeout => 504
    case ServiceUnavailable(_) => 503
    case InternalError(_) => 500
  }

  // Unique constraints of the tables

  predicate UniqueUsernames(users: map<UserId, User>) {
    forall a, b :: a in users && b in users && a != b ==> users[a].username != users[b].username
  }

  predicate UniqueEmails(users: map<UserId, User>) {
    forall a, b :: a in users && b in users && a != b ==> users[a].email != users[b].email
  }

  predicate UniqueQuestionKeys(questions: map<QuestionId, Question>) {
    forall a, b :: a in questions && b in questions && a != b ==> questions[a].key != questions[b].key
  }

  /** Result rows have distinct ids (the primary key of test_results). */
  predicate DistinctResultIds(results: map<TestId, TestResult>) {
    forall a, b :: a in results && b in results && a != b ==> results[a].id != results[b].id
  }

  function ResultIds(results: map<TestId, TestResult>): set<ResultId> {
    set t | t in results :: results[t].id
  }

  predicate UsernameInUse(users: map<UserId, User>, name: string) {
    exists id :: id in users && users[id].username == name
  }

  predicate EmailInUse(users: map<UserId, User>, email: string) {
    exists id :: id in users && users[id].email == email
  }
}
