# Burnout questionnaire backend — a Dafny model

BackendBurnoutCheck is a FastAPI/SQLAlchemy service. Students use it to fill in a
19-question burnout questionnaire. On completion the service sends the answers
to an external prediction service and stores the verdict (S: burnout risk, N:
none) together with the recommendations that match it. Around this workflow
there are three tables:

- questions with their answer options;
- recommendations;
- user accounts with registration and login.

This project models that core in Dafny and proves what each operation
promises.

- **The database.** One `Store.Database` object holds the tables:
  - users, tests and questions as maps from id to row;
  - answers keyed by (test, question), which is the unique constraint of `test_responses`;
  - results keyed by test, which is the unique `test_id` of `test_results`;
  - the result–recommendation links as a set of pairs, which is the unique pair of `test_recommendations`;
  - the question options as a sequence in insertion order;
  - one id counter per table.

  `Database.Valid()` states the unique constraints and every foreign key. Every
  operation that changes the store keeps it. `ResultsFollowCompletion()`
  states that only a completed test has a result; the route layer keeps it.
- **CRUD and routes.** Each CRUD function and route handler is a method on the
  store.
  - Its `modifies` clause names exactly the tables it writes.
  - Its postcondition says when it fails and with which error, following the
    order of the code's checks, and what each table it writes holds afterwards.
  - Pure queries (the listings, the response dictionary, the guards, login)
    are functions.
- **The prediction request.** The request builder of the ML client is a pure
  function over an explicit 23-field record. The record is proved to round-trip
  with the sparse key→answer map it is built from.
- **Foreign code.** Hashing, password checking, token signing, the clock and
  the HTTP exchange with the predictor are all parameters.

Modules, one per source file: `Models` (entities, errors, status codes),
`Store`, `Listing` (the `order_by`/`offset`/`limit` shape of the list queries),
`TestSchemas`, `CrudTests`, `CrudQuestions`, `CrudRecommendations`,
`MlService`, `RoutesTests`, `RoutesUsers`, `RoutesAuth`.

Four behaviours of the code are easy to miss. The model keeps each as written:

- **Completion is not rolled back.** The route commits the COMPLETED status
  before it calls the predictor. A failed prediction therefore leaves a
  completed test with no result, and any later completion attempt is refused
  with 400 (`RoutesTests.CompleteTestRoute`).
- **Deleting a referenced row is a 500.** Deleting a question that has
  answers, or a recommendation that has links, does not cascade. The ORM
  relationships `Question.responses` and `Recommendation.test_recommendations`
  have no delete cascade, so SQLAlchemy tries to set the non-nullable foreign
  key to NULL and the commit fails. Both deletes are modelled as
  `InternalError(IntegrityViolation)`.
- **Only "SI" means burnout.** The response schema's comment names the
  predictor's answers "S"/"N". The route, however, maps only the string "SI"
  to S, and every other string to N. The model follows the route
  (`RoutesTests.PredictionOf`).
- **A failed profile update writes nothing.** The session is created with
  `autoflush=False`. A profile update that fails on the e-mail check after the
  username was already assigned in memory therefore commits nothing.

## Model

| member | source | states |
|---|---|---|
| Models.StatusCode | app/services/ml_service.py:57-79 | every error maps to a 4xx or 5xx code; a code is 5xx exactly for gateway timeout, service unavailable and internal errors |
| Store.Database.constructor | app/database.py:13-15 | the empty database satisfies every unique and foreign-key invariant and every table is empty |
| Store.AnswersWithoutTests | app/models/test.py:27 | cascading a test delete keeps exactly the answers of the surviving tests, with their values |
| Store.LinksWithoutTests | app/models/test_result.py:20 | cascading a test delete keeps exactly the links whose result belongs to a surviving test |
| Store.CascadeKeepsLinks | app/models/recommendation.py:31 | after the cascade every remaining link still refers to an existing result |
| CrudTests.AnswerKeysOf | app/crud/tests.py:105-107 | the answer keys of a test are exactly the stored keys carrying that test id |
| CrudTests.ResponsesAsDict | app/crud/tests.py:110-120 | each answered question appears under its question key with its answer, and every key comes from an answer of that test |
| CrudTests.DictSizeIsAnswerCount | app/crud/tests.py:110-120 | because question keys are unique, the dictionary has exactly as many entries as the test has answer rows |
| CrudTests.InjectiveImageSize | app/crud/tests.py:120 | distinct questions give distinct dictionary keys, so no answer is lost in the comprehension |
| CrudTests.CreateTest | app/crud/tests.py:27-45 | a new test gets the next id, belongs to the caller, copies the four demographic fields, starts IN_PROGRESS with no answers and no result |
| CrudTests.UpsertFacts | app/models/test_response.py:17-19 | an upsert writes the latest value under the pair, keeps the row id of an existing answer or takes the next id, and leaves every other pair alone |
| CrudTests.UpsertCount | app/crud/tests.py:79-102 | an upsert adds one to a test's answer count only when the pair was unanswered, and never changes another test's count |
| CrudTests.UpsertKeepsRefs | app/crud/tests.py:79-102 | an upsert for an existing test and question keeps every answer's foreign keys valid |
| CrudTests.AddTestResponse | app/crud/tests.py:48-102 | missing test 404, then not IN_PROGRESS 400, then missing question 404, with no answer written; otherwise the upsert, returning the stored row |
| CrudTests.CompleteTest | app/crud/tests.py:123-158 | missing test 404, then already completed 400, then too few answers 400 with both counts; otherwise only status and completion time change |
| CrudTests.AddResultKeepsRows | app/models/test_result.py:12 | adding a result under a new id for a test without one keeps result ids distinct and every link valid |
| CrudTests.CreateTestResult | app/crud/tests.py:161-193 | missing test 404, then an existing result 400 with no second row; otherwise exactly one result carrying the given prediction, probability and version |
| CrudTests.LinksFor | app/crud/tests.py:212-217 | the links inserted are exactly one pair per recommendation, all for the given result |
| CrudTests.RepeatedAssignmentRejected | app/models/recommendation.py:36-38 | assigning the same non-empty recommendations to a result a second time violates the unique link pair |
| CrudTests.PendingLinks | app/crud/tests.py:212-217 | the loop collects exactly the links of the given result to the given recommendations |
| CrudTests.AssignRecommendations | app/crud/tests.py:196-221 | returns exactly the active recommendations of the prediction's polarity and adds one link each; a duplicate link is an integrity error that adds nothing |
| CrudTests.GetTestResult | app/crud/tests.py:224-226 | a result is found exactly when the test has one, and it is that row |
| CrudTests.RemoveLinksOf | app/models/test_result.py:20 | drops exactly the links of the doomed tests' results, keeping the invariants |
| CrudTests.RemoveResultsOf | app/models/test.py:28 | drops exactly the results of the doomed tests, keeping the invariants |
| CrudTests.RemoveAnswersOf | app/models/test.py:27 | drops exactly the answers of the doomed tests, keeping the invariants |
| CrudTests.RemoveTestRows | app/crud/tests.py:239 | drops exactly the doomed test rows once nothing refers to them |
| CrudTests.RemoveTests | app/models/test.py:27-28 | deletes a set of tests with their answers, results and links, and nothing else |
| CrudTests.DeleteTest | app/crud/tests.py:229-242 | false and nothing changed for a missing test; otherwise true, and the test, its answers, its result and the result's links are gone |
| CrudQuestions.GetAllQuestions | app/crud/questions.py:19-29 | the rows are exactly the `offset`/`limit` window of the stored questions (only the active ones when asked) ordered by `order`: each a stored question, ordered, and without paging every matching question |
| CrudQuestions.GetActiveQuestions | app/crud/questions.py:32-34 | exactly the active questions, ordered by `order` |
| CrudQuestions.ActiveIsUnpagedListing | app/crud/questions.py:24-34 | the active-question query is the general listing with the active filter and no paging |
| CrudQuestions.OptionsOf | app/models/question.py:20 | the options of a question all belong to it |
| CrudQuestions.OptionsOfAppend | app/models/question.py:20 | the options of a question in a concatenation are those of each part, in order |
| CrudQuestions.OptionsOfNone | app/models/question.py:20 | a question has no options in rows that all belong to others |
| CrudQuestions.OptionsOfAll | app/models/question.py:20 | rows that all belong to a question are exactly its options |
| CrudQuestions.OptionRows | app/crud/questions.py:62-70 | one option row per supplied option, in the supplied order, with consecutive ids, linked to the question |
| CrudQuestions.AppendOptions | app/crud/questions.py:63-70 | the loop appends exactly those rows and advances the option counter by their number |
| CrudQuestions.CreateQuestion | app/crud/questions.py:37-75 | a duplicate key is a 400 that inserts nothing; otherwise the question is inserted and carries exactly the supplied options in order |
| CrudQuestions.PatchKeepsKeysUnique | app/crud/questions.py:83-107 | a partial update never changes the key, so keys stay unique; unsupplied fields keep their values and an empty update changes nothing |
| CrudQuestions.UpdateQuestion | app/crud/questions.py:78-107 | missing question 404 with nothing changed; otherwise only that row changes, to its patched value |
| CrudQuestions.DeactivateQuestion | app/crud/questions.py:126-143 | missing question 404; otherwise only `active` of that row becomes false |
| CrudQuestions.DeactivatedLeavesActiveListing | app/crud/questions.py:32-34 | after deactivation the question leaves the active listing and no other question enters it |
| CrudQuestions.OptionsWithout | app/models/question.py:20 | the cascade keeps exactly the options of the other questions |
| CrudQuestions.RemoveOptionsOf | app/models/question.py:20 | the cascade removes exactly that question's options, keeping the invariants |
| CrudQuestions.RemoveQuestionRow | app/crud/questions.py:120 | removes exactly the question row once nothing refers to it |
| CrudQuestions.DeleteQuestion | app/crud/questions.py:110-123 | false for a missing question; an integrity error with nothing removed when it has answers; otherwise true, with the question and its options gone |
| CrudQuestions.CreateQuestionOption | app/crud/questions.py:146-167 | missing question 404 with nothing added; otherwise exactly one option appended to that question and no other question's options change |
| CrudRecommendations.GetAllRecommendations | app/crud/recommendations.py:14-38 | the rows are exactly the `offset`/`limit` window of the stored rows passing each requested filter, newest first; without paging every matching row is listed |
| CrudRecommendations.NoFilterKeepsEverything | app/crud/recommendations.py:30-36 | with neither filter and no paging every recommendation is listed |
| CrudRecommendations.ActiveRecommendations | app/crud/recommendations.py:41-51 | only existing recommendations are selected |
| CrudRecommendations.ActiveMatchesListing | app/crud/recommendations.py:41-51 | a recommendation is selected exactly when the listing with the active filter and that polarity contains it |
| CrudRecommendations.PatchFacts | app/crud/recommendations.py:89-102 | unsupplied fields keep their values, creation time never changes, an empty update changes nothing, and a repeated update changes nothing more |
| CrudRecommendations.CreateRecommendation | app/crud/recommendations.py:54-68 | the new row gets the next id and exactly the supplied fields |
| CrudRecommendations.UpdateRecommendation | app/crud/recommendations.py:71-107 | missing row 404 with nothing changed; otherwise only that row changes, to its patched value |
| CrudRecommendations.Deactivated | app/crud/recommendations.py:139 | deactivation keeps the set of recommendation ids |
| CrudRecommendations.DeactivateFacts | app/crud/recommendations.py:126-143 | only `active` of that row becomes false, it leaves the active set for both polarities, and deactivating twice equals deactivating once |
| CrudRecommendations.DeactivateRecommendation | app/crud/recommendations.py:126-143 | missing row 404 with nothing changed; otherwise the deactivated table, returning the row |
| CrudRecommendations.DeleteRecommendation | app/crud/recommendations.py:110-123 | false for a missing row; an integrity error with nothing removed when it is linked to a result; otherwise true and the row is gone |
| MlService.Digits | app/services/ml_service.py:100-118 | the decimal spelling of a number has at least one digit, two from ten on |
| MlService.DigitsInjective | app/services/ml_service.py:100-118 | different numbers have different decimal spellings |
| MlService.QuestionKeyInjective | app/services/ml_service.py:100-118 | different question numbers give different `preguntaN` keys |
| MlService.BuildPredictionRequest | app/services/ml_service.py:81-125 | the demographics are copied verbatim, and field N holds the answer under `preguntaN` or the empty string when it is missing |
| MlService.RecordExtensionality | app/schemas/test_result.py:65-89 | two request records with the same demographics and the same 19 answers are equal |
| MlService.BuildIgnoresOtherKeys | app/services/ml_service.py:95-119 | keys other than pregunta1..19 do not affect the request |
| MlService.ReadBackHas | app/services/ml_service.py:100-118 | every non-empty answer of the record is read back under its key |
| MlService.ReadBackFrom | app/services/ml_service.py:100-118 | every key read back is a question key whose field holds that value |
| MlService.ReadBackAfterBuildFrom | app/services/ml_service.py:100-118 | every key read back from a built request is a question key of the input map, with the same value |
| MlService.ReadBackAfterBuildHas | app/services/ml_service.py:100-118 | every question key of the input map with a non-empty answer is read back from the built request |
| MlService.SameMap | app/services/ml_service.py:95-125 | two maps with the same keys and values are equal |
| MlService.ReadBackAfterBuild | app/services/ml_service.py:95-125 | building a request and reading it back gives the input's question entries with non-empty answers |
| MlService.RequestRoundTrip | app/services/ml_service.py:95-125 | for a map of non-empty answers under question keys, building and reading back gives the map and the demographics back |
| MlService.BuildAfterReadBack | app/services/ml_service.py:95-125 | building from a record's demographics and read-back answers gives the record back |
| MlService.Translate | app/services/ml_service.py:57-79 | a timeout becomes a 504, an error status a 503 that carries the status, any other request failure a 503, and anything else a 500, checked in that order |
| MlService.Predict | app/services/ml_service.py:38-79 | timeout 504; connection failure 503; a non-2xx reply 503 with its status; a malformed body 500; otherwise the parsed reply |
| MlService.TimeoutBeforeRequestError | app/services/ml_service.py:57-73 | a timeout is also a request error, yet it is classified as 504 and not 503, because its handler comes first |
| RoutesTests.Guard | app/routes/tests.py:60-72 | a missing test is 404, then another user's test is 403; otherwise the caller's test |
| RoutesTests.TallyOf | app/routes/tests.py:78-87 | the reported total is the answer count and `remaining` is 19 minus it, negative exactly when more than 19 rows exist |
| RoutesTests.StartTest | app/routes/tests.py:25-44 | the caller's new test is IN_PROGRESS with the given demographics and reports 0 answers out of 19 |
| RoutesTests.SubmitResponse | app/routes/tests.py:47-87 | 404 or 403 from the guards, 400 for a completed test, 404 for an unknown question, success exactly otherwise; a failure writes nothing, a success upserts the answer and reports the counters of the updated test |
| RoutesTests.ApplyRangeKeeps | app/routes/tests.py:118-119 | the batch loop never removes an answer and leaves every pair no item names unchanged |
| RoutesTests.ApplyRangeCovers | app/routes/tests.py:118-119 | every applied item leaves an answer under its pair |
| RoutesTests.ApplyRangeLastWins | app/routes/tests.py:118-119 | the stored value of a pair is that of the last item naming its question |
| RoutesTests.ApplyRangeFacts | app/routes/tests.py:118-119 | after the applied prefix, other tests' answers are unchanged, and every applied item is stored, the last one per question winning |
| RoutesTests.FirstUnknownFrom | app/routes/tests.py:118-119 | the index of the first item, from a start, that names no question |
| RoutesTests.FirstUnknown | app/routes/tests.py:118-119 | every item before it names an existing question and the item at it does not |
| RoutesTests.ApplyItem | app/routes/tests.py:118-119 | one loop step stores its item or stops with 404, consistent with the fold of the remaining items |
| RoutesTests.ApplyBatch | app/routes/tests.py:117-119 | items are applied in order up to the first unknown question, which fails with 404 while the earlier items stay stored; a completed test stores nothing |
| RoutesTests.SubmitResponsesBatch | app/routes/tests.py:90-129 | the guards first, then the loop; success reports the counters of the updated test |
| RoutesTests.PredictionOf | app/routes/tests.py:186 | the prediction is S exactly when the predictor answered "SI" |
| RoutesTests.Draft | app/routes/tests.py:184-189 | the result draft carries the test id, the probability and the model version of the reply, and S exactly for "SI" |
| RoutesTests.LinkedTo | app/routes/tests.py:329-335 | the recommendations of a result are exactly those linked to it |
| RoutesTests.ResultDetailOf | app/routes/tests.py:321-335 | a detail exists exactly when the test has a result; it is that result with exactly the recommendations linked to it, all of them existing |
| RoutesTests.LinksBelowNextResult | app/models/recommendation.py:31 | every link refers to an already issued result id |
| RoutesTests.Recorded | app/routes/tests.py:184-206 | the reported result carries the reply's probability and version, S exactly for "SI", and exactly the active recommendations of its polarity |
| RoutesTests.CompletionOutcome | app/routes/tests.py:181-194 | a predictor error is passed on unchanged; a reply that does not validate as a result is a 500; a valid reply is recorded |
| RoutesTests.RecordOutcome | app/routes/tests.py:181-194 | stores exactly one result and its links on success and nothing on failure |
| RoutesTests.PrepareCompletion | app/routes/tests.py:149-178 | it fails exactly when the completion is refused, with that refusal and no write; on success the test is committed COMPLETED and the request is built from its demographics and its answers |
| RoutesTests.CompletionRefusalCases | app/routes/tests.py:149-163 | a completion is refused with 404 for a missing test, 403 for another user's, 400 for a completed one, 400 with both counts for fewer than nineteen answers, and accepted exactly otherwise |
| RoutesTests.CompleteTestRoute | app/routes/tests.py:132-209 | a request is sent exactly when the completion is not refused, and it is the one built from the test and its answers; a refusal is returned with no write; once sent, the test stays COMPLETED whatever the predictor answers, and success stores one result with its links and returns them |
| RoutesTests.GateIgnoresQuestionKeys | app/crud/tests.py:143-149 | the completion gate counts rows only: when none of a test's answers is to a question keyed `preguntaN`, the request built for it holds 19 empty answers |
| RoutesTests.GetTestResultRoute | app/routes/tests.py:298-348 | guards, then no result yet 404; otherwise the stored result and its recommendations |
| RoutesTests.CompletedResultReadsBack | app/routes/tests.py:298-348 | what completion stored is what the result endpoint returns |
| RoutesTests.UserTests | app/crud/tests.py:22-24 | the rows are exactly the `offset`/`limit` window of the caller's tests, newest first; without paging all of them |
| RoutesTests.MarkResults | app/routes/tests.py:227-231 | one item per test, in order, flagged exactly when the test has a result |
| RoutesTests.GetMyTests | app/routes/tests.py:212-233 | the caller's listing with result flags; only completed tests are flagged |
| RoutesTests.DeleteTestRoute | app/routes/tests.py:351-375 | the guards change nothing; otherwise the test with its answers, result and links is deleted |
| RoutesUsers.ViewOf | app/schemas/user.py:44-51 | the view carries the id, username, e-mail, name, last name, phone, role and active flag of the row |
| RoutesUsers.ViewHidesPassword | app/schemas/user.py:44-51 | two rows have the same view exactly when they differ at most in the password hash |
| RoutesUsers.StatsOf | app/routes/users.py:28-32 | completed tests never exceed all tests; the difference is the tests in progress |
| RoutesUsers.StartCountsOne | app/routes/users.py:28-32 | starting a test adds one to the total and nothing to the completed count |
| RoutesUsers.CompletionCountsOne | app/routes/users.py:28-32 | completing a test adds one to the completed count and leaves the total |
| RoutesUsers.GetUserById | app/routes/users.py:137-170 | 404 exactly for a missing user; otherwise its view, with total_tests the number of its tests and completed_tests the number of its COMPLETED tests (StatsOf), completed never above total |
| RoutesUsers.GetMyProfile | app/routes/users.py:15-39 | the caller's profile is the by-id detail of the caller: the number of their tests and of their COMPLETED tests |
| RoutesUsers.ReplaceKeepsUnique | app/models/user.py:12-18 | replacing a row whose new username and e-mail are either unchanged or unused keeps both columns unique |
| RoutesUsers.NoConflictKeepsUnique | app/routes/users.py:55-72 | an update without a conflict keeps usernames and e-mails unique, for both the self and the admin update |
| RoutesUsers.RetryIsHarmless | app/routes/users.py:55-82 | repeating a successful update meets no conflict and changes nothing more |
| RoutesUsers.AdminPatchWithoutPrivileges | app/routes/users.py:224-228 | an admin update that supplies neither role nor active is the self update |
| RoutesUsers.WriteUser | app/routes/users.py:87 | committing a row whose new username and e-mail are free keeps the invariants and changes only that row |
| RoutesUsers.PatchProfile | app/routes/users.py:55-82 | username taken 400, then e-mail taken 400; otherwise the patched row, whose new username and e-mail are free |
| RoutesUsers.UpdateMyProfile | app/routes/users.py:42-90 | a conflict is a 400 that changes nothing; otherwise only the supplied fields change; role, active and password never change |
| RoutesUsers.UpdateUser | app/routes/users.py:173-233 | missing user 404, then the conflicts as 400 with nothing changed; otherwise the supplied fields, role and active included, change |
| RoutesUsers.RemoveUserRow | app/routes/users.py:263-264 | removes exactly the user row once no test refers to it |
| RoutesUsers.DeleteUser | app/routes/users.py:236-265 | missing user 404, then self-deletion 400, with nothing changed; otherwise the user and all their tests with answers, results and links are gone |
| RoutesAuth.FindByUsername | app/routes/auth.py:80 | an account is found exactly when the username is in use, and under unique usernames it is the one holder |
| RoutesAuth.Registered | app/routes/auth.py:48-57 | a new account is a regular, active user with empty name, lastname and phone, and it stores the hash, not the password |
| RoutesAuth.InsertKeepsUnique | app/routes/auth.py:32-45 | inserting a row with an unused username and e-mail keeps both columns unique |
| RoutesAuth.Register | app/routes/auth.py:17-63 | username in use 400, then e-mail in use 400, with nothing inserted; otherwise the registered row under the next id |
| RoutesAuth.Login | app/routes/auth.py:66-118 | 401 exactly when no holder of the username has that password; 403 for a correct password on an inactive account; otherwise a bearer token for username and role, with the lifetime only when positive |
| RoutesAuth.RegisteredCanLogIn | app/routes/auth.py:89-118 | a just-registered account logs in with its own password as a regular user |
| RoutesAuth.UnknownAndWrongAlike | app/routes/auth.py:82-95 | an unknown username and a wrong password give the same answer |
| Listing.SortFacts | app/crud/questions.py:29 | the sort orders the rows by the key and is a permutation of them |
| Listing.SortKeepsRows | app/crud/recommendations.py:38 | the sort returns exactly the rows it was given, in order |
| Listing.Page | app/crud/recommendations.py:38 | the result is the `offset`/`limit` window: as many rows as the offset and the limit allow, those after the first `skip` |
| Listing.OrderedFacts | app/crud/tests.py:24 | before paging, the listing holds exactly the table rows that pass the filter, by ascending rank, and no key twice |
| Listing.PageOfSorted | app/crud/tests.py:24 | a page of an ordered listing is ordered, holds only its rows, and without offset or limit is the whole listing |
| Listing.QueryFacts | app/crud/questions.py:29 | a listing holds only filtered table rows, in order, and without paging all of them |

## Left out

- The HTTP exchange with the predictor (httpx, async, the 30-second timeout) is not modelled. A function from request to `Exchange` outcome stands in for it: a timeout, a request failure, a status with or without a parsable body. Only the classification of that outcome is modelled.
- Password hashing, password verification and JWT signing are parameters of `Register` and `Login`, because they are foreign libraries. `app/utils/jwt.py` is not part of this model.
- The bearer-token dependencies (app/dependencies.py) are not modelled. The caller's identity is a parameter: an existing account for the self routes, and for the admin routes an admin checked before the handler runs.
- The clock is a `now` parameter. The America/Lima time zone of `completed_at` is not modelled, nor are the server-side `created_at`, `updated_at` and `predicted_at` defaults beyond that stamp.
- The predictor's probability is an opaque real. Floating-point behaviour is not modelled, and the 0..1 bound is only the schema's precondition.
- Listing.Ordered: among rows with equal sort keys it fixes ascending primary-key order. The database promises no order between such rows, so the listings `CrudQuestions.GetAllQuestions`, `CrudRecommendations.GetAllRecommendations` and `RoutesTests.UserTests` pin down one of the orders the database may return. They do not model the others.
- `skip` and `limit` are naturals. A negative value, which SQL would reject, is not modelled.
- E-mail syntax (`EmailStr`) is not checked. Request validation failures (422) are preconditions rather than results, because FastAPI rejects such a request before any handler runs.
- Response shaping (Pydantic models, `from_attributes`, the recommendation lists) is not modelled. Only the values the handlers compute are.
- `delete_question_option` (app/crud/questions.py:170-180) is not modelled: no route of the modelled workflow calls it.
- `list_users` (app/routes/users.py:121-134) is not modelled: it is an unordered page of the table with no filter.
- `change_my_password` (app/routes/users.py:93-116) is not modelled: it only re-checks a password through the foreign verifier and stores a new hash.
- `get_test_detail` (app/routes/tests.py:236-295) is not modelled: it shapes the stored answers into a response after the same guards as `RoutesTests.Guard`.
- The single-row lookups `get_test_by_id`, `get_question_by_id`, `get_question_by_key` and `get_recommendation_by_id` are plain map reads inside the operations.
- The thin HTTP dispatchers of app/routes/questions.py and app/routes/recommendations.py are not modelled; the CRUD operations they forward to are.
- Concurrency between requests is not modelled. Each operation runs alone against the store.
- RoutesAuth.Login: takes unique usernames as a precondition; the database's unique constraint guarantees it.
- RoutesUsers.ViewOf: does not carry `created_at` and `updated_at`, because the model keeps no row timestamps for accounts.
