/** The client of the external prediction service (app/services/ml_service.py):
    the request it builds from a test and its answers, and how it turns what
    happened on the wire into the HTTP error the caller sees. The HTTP
    exchange itself is not modelled: it is an `Exchange` value supplied by
    the caller. */
module MlService {
  import opened Models

  /** The four demographic fields taken from the test. */
  datatype Demographics = Demographics(ciclo: int, genero: string, facultad: string, practicasprepro: string)

  /** QuestionResponses: the fixed 23-field record the model expects. */
  datatype QuestionResponses = QuestionResponses(
    ciclo: int, genero: string, facultad: string, practicasprepro: string,
    pregunta1: string, pregunta2: string, pregunta3: string, pregunta4: string,
    pregunta5: string, pregunta6: string, pregunta7: string, pregunta8: string,
    pregunta9: string, pregunta10: string, pregunta11: string, pregunta12: string,
    pregunta13: string, pregunta14: string, pregunta15: string, pregunta16: string,
    pregunta17: string, pregunta18: string, pregunta19: string)

  datatype MLPredictionRequest = MLPredictionRequest(respuestas: QuestionResponses)

  datatype MLPredictionResponse = MLPredictionResponse(resultado: string, probabilidad: Probability, modelVersion: string)

  const QuestionCount: nat := 19

  // The question keys "pregunta1" .. "pregunta19"

  function DigitChar(d: nat): char
    requires d < 10
  {
    (48 + d) as char
  }

  /** Decimal notation of `n`, without leading zeros. */
  function Digits(n: nat): (s: string)
    ensures |s| >= 1 && (n >= 10 ==> |s| >= 2)
  {
    if n < 10 then [DigitChar(n)] else Digits(n / 10) + [DigitChar(n % 10)]
  }

  function QuestionKey(k: nat): string {
    "pregunta" + Digits(k)
  }

  lemma {:induction false} DigitsInjective(a: nat, b: nat)
    requires Digits(a) == Digits(b)
    ensures a == b
  {
    if a >= 10 && b >= 10 {
      var sa, sb := Digits(a), Digits(b);
      assert sa[|sa| - 1] == DigitChar(a % 10) && sb[|sb| - 1] == DigitChar(b % 10);
      assert sa[..|sa| - 1] == Digits(a / 10) && sb[..|sb| - 1] == Digits(b / 10);
      DigitsInjective(a / 10, b / 10);
    } else if a < 10 && b < 10 {
      assert Digits(a)[0] == DigitChar(a) && Digits(b)[0] == DigitChar(b);
    }
  }

  /** Distinct question numbers give distinct keys. */
  lemma QuestionKeyInjective(a: nat, b: nat)
    requires QuestionKey(a) == QuestionKey(b)
    ensures a == b
  {
    assert QuestionKey(a)[8..] == Digits(a) && QuestionKey(b)[8..] == Digits(b);
    DigitsInjective(a, b);
  }

  predicate IsQuestionKey(key: string) {
    exists k :: 1 <= k <= QuestionCount && QuestionKey(k) == key
  }

  // The request record

  /** `responses.get(key, "")` */
  function Get(responses: map<string, string>, key: string): string {
    if key in responses then responses[key] else ""
  }

  /** Field `pregunta<k>` of the record. */
  function Pregunta(q: QuestionResponses, k: nat): string
    requires 1 <= k <= QuestionCount
  {
    if k == 1 then q.pregunta1
    else if k == 2 then q.pregunta2
    else if k == 3 then q.pregunta3
    else if k == 4 then q.pregunta4
    else if k == 5 then q.pregunta5
    else if k == 6 then q.pregunta6
    else if k == 7 then q.pregunta7
    else if k == 8 then q.pregunta8
    else if k == 9 then q.pregunta9
    else if k == 10 then q.pregunta10
    else if k == 11 then q.pregunta11
    else if k == 12 then q.pregunta12
    else if k == 13 then q.pregunta13
    else if k == 14 then q.pregunta14
    else if k == 15 then q.pregunta15
    else if k == 16 then q.pregunta16
    else if k == 17 then q.pregunta17
    else if k == 18 then q.pregunta18
    else q.pregunta19
  }

  function DemographicsOf(q: QuestionResponses): Demographics {
    Demographics(q.ciclo, q.genero, q.facultad, q.practicasprepro)
  }

  /** build_prediction_request: total for any demographics and any (sparse)
      answer map; the demographics are copied and each question field is the
      answer under its key, or "" when that key is missing. */
  function BuildPredictionRequest(test: Demographics, responses: map<string, string>): (req: MLPredictionRequest)
    ensures DemographicsOf(req.respuestas) == test
    ensures forall k :: 1 <= k <= QuestionCount ==>
              Pregunta(req.respuestas, k) == (if QuestionKey(k) in responses then responses[QuestionKey(k)] else "")
  {
    MLPredictionRequest(QuestionResponses(
      test.ciclo, test.genero, test.facultad, test.practicasprepro,
      Get(responses, QuestionKey(1)), Get(responses, QuestionKey(2)), Get(responses, QuestionKey(3)),
      Get(responses, QuestionKey(4)), Get(responses, QuestionKey(5)), Get(responses, QuestionKey(6)),
      Get(responses, QuestionKey(7)), Get(responses, QuestionKey(8)), Get(responses, QuestionKey(9)),
      Get(responses, QuestionKey(10)), Get(responses, QuestionKey(11)), Get(responses, QuestionKey(12)),
      Get(responses, QuestionKey(13)), Get(responses, QuestionKey(14)), Get(responses, QuestionKey(15)),
      Get(responses, QuestionKey(16)), Get(responses, QuestionKey(17)), Get(responses, QuestionKey(18)),
      Get(responses, QuestionKey(19))))
  }

  /** Two records with the same demographics and the same answer fields are equal. */
  lemma RecordExtensionality(q1: QuestionResponses, q2: QuestionResponses)
    requires DemographicsOf(q1) == DemographicsOf(q2)
    requires forall k :: 1 <= k <= QuestionCount ==> Pregunta(q1, k) == Pregunta(q2, k)
    ensures q1 == q2
  {
    assert Pregunta(q1, 1) == Pregunta(q2, 1) &&
           Pregunta(q1, 2) == Pregunta(q2, 2) &&
           Pregunta(q1, 3) == Pregunta(q2, 3) &&
           Pregunta(q1, 4) == Pregunta(q2, 4) &&
           Pregunta(q1, 5) == Pregunta(q2, 5) &&
           Pregunta(q1, 6) == Pregunta(q2, 6) &&
           Pregunta(q1, 7) == Pregunta(q2, 7) &&
           Pregunta(q1, 8) == Pregunta(q2, 8) &&
           Pregunta(q1, 9) == Pregunta(q2, 9) &&
           Pregunta(q1, 10) == Pregunta(q2, 10) &&
           Pregunta(q1, 11) == Pregunta(q2, 11) &&
           Pregunta(q1, 12) == Pregunta(q2, 12) &&
           Pregunta(q1, 13) == Pregunta(q2, 13) &&
           Pregunta(q1, 14) == Pregunta(q2, 14) &&
           Pregunta(q1, 15) == Pregunta(q2, 15) &&
           Pregunta(q1, 16) == Pregunta(q2, 16) &&
           Pregunta(q1, 17) == Pregunta(q2, 17) &&
           Pregunta(q1, 18) == Pregunta(q2, 18) &&
           Pregunta(q1, 19) == Pregunta(q2, 19);
  }

  /** Keys other than pregunta1..pregunta19 have no effect on the request. */
  lemma BuildIgnoresOtherKeys(test: Demographics, m1: map<string, string>, m2: map<string, string>)
    requires forall k :: 1 <= k <= QuestionCount ==> Get(m1, QuestionKey(k)) == Get(m2, QuestionKey(k))
    ensures BuildPredictionRequest(test, m1) == BuildPredictionRequest(test, m2)
  {
    var q1, q2 := BuildPredictionRequest(test, m1).respuestas, BuildPredictionRequest(test, m2).respuestas;
    forall k | 1 <= k <= QuestionCount
      ensures Pregunta(q1, k) == Pregunta(q2, k)
    {
      assert Get(m1, QuestionKey(k)) == Get(m2, QuestionKey(k));
    }
    RecordExtensionality(q1, q2);
  }

  /** Reading the answers back out of a record: the non-empty question
      fields, under their keys. */
  ghost function ReadBack(q: QuestionResponses): map<string, string> {
    forall a, b | 1 <= a <= QuestionCount && 1 <= b <= QuestionCount && QuestionKey(a) == QuestionKey(b)
      ensures a == b
    {
      QuestionKeyInjective(a, b);
    }
    map k | 1 <= k <= QuestionCount && Pregunta(q, k) != "" :: QuestionKey(k) := Pregunta(q, k)
  }

  /** An answer field that is not empty is read back under its key. */
  lemma ReadBackHas(q: QuestionResponses, k: nat)
    requires 1 <= k <= QuestionCount && Pregunta(q, k) != ""
    ensures QuestionKey(k) in ReadBack(q) && ReadBack(q)[QuestionKey(k)] == Pregunta(q, k)
  {
    var m := ReadBack(q);
    assert QuestionKey(k) in m;
    var j :| 1 <= j <= QuestionCount && Pregunta(q, j) != "" && QuestionKey(j) == QuestionKey(k) && m[QuestionKey(k)] == Pregunta(q, j);
    QuestionKeyInjective(j, k);
  }

  /** Every read-back entry comes from a non-empty answer field. */
  lemma ReadBackFrom(q: QuestionResponses, key: string)
    requires key in ReadBack(q)
    ensures exists k :: 1 <= k <= QuestionCount && QuestionKey(k) == key && Pregunta(q, k) != "" && ReadBack(q)[key] == Pregunta(q, k)
  {
  }

  /** What reading back a built record keeps of the answer map: the
      non-empty answers under the nineteen question keys. */
  ghost function QuestionEntries(responses: map<string, string>): map<string, string> {
    map key | key in responses && IsQuestionKey(key) && responses[key] != "" :: responses[key]
  }

  /** Every entry read back from a built record is a non-empty answer stored
      under a question key. */
  lemma ReadBackAfterBuildFrom(test: Demographics, responses: map<string, string>)
    ensures forall key :: key in ReadBack(BuildPredictionRequest(test, responses).respuestas) ==>
              key in QuestionEntries(responses)
              && ReadBack(BuildPredictionRequest(test, responses).respuestas)[key] == QuestionEntries(responses)[key]
  {
    var q := BuildPredictionRequest(test, responses).respuestas;
    forall key | key in ReadBack(q)
      ensures key in QuestionEntries(responses) && ReadBack(q)[key] == QuestionEntries(responses)[key]
    {
      ReadBackFrom(q, key);
      var k :| 1 <= k <= QuestionCount && QuestionKey(k) == key && Pregunta(q, k) != "" && ReadBack(q)[key] == Pregunta(q, k);
      assert IsQuestionKey(key);
    }
  }

  /** Every non-empty answer stored under a question key is read back. */
  lemma ReadBackAfterBuildHas(test: Demographics, responses: map<string, string>)
    ensures forall key :: key in QuestionEntries(responses) ==> key in ReadBack(BuildPredictionRequest(test, responses).respuestas)
  {
    forall key | key in QuestionEntries(responses)
      ensures key in ReadBack(BuildPredictionRequest(test, responses).respuestas)
    {
      var k :| 1 <= k <= QuestionCount && QuestionKey(k) == key;
      ReadBackHas(BuildPredictionRequest(test, responses).respuestas, k);
    }
  }

  lemma SameMap(a: map<string, string>, b: map<string, string>)
    requires forall key :: key in a ==> key in b && a[key] == b[key]
    requires forall key :: key in b ==> key in a
    ensures a == b
  {
  }

  /** Round trip through the record: what comes back is exactly the
      non-empty answers stored under the nineteen question keys; every other
      entry of the map is dropped. */
  lemma ReadBackAfterBuild(test: Demographics, responses: map<string, string>)
    ensures ReadBack(BuildPredictionRequest(test, responses).respuestas) == QuestionEntries(responses)
  {
    ReadBackAfterBuildFrom(test, responses);
    ReadBackAfterBuildHas(test, responses);
    SameMap(ReadBack(BuildPredictionRequest(test, responses).respuestas), QuestionEntries(responses));
  }

  /** Answers stored under question keys, all non-empty, survive the round
      trip unchanged. */
  lemma RequestRoundTrip(test: Demographics, responses: map<string, string>)
    requires forall key :: key in responses ==> IsQuestionKey(key) && responses[key] != ""
    ensures ReadBack(BuildPredictionRequest(test, responses).respuestas) == responses
    ensures DemographicsOf(BuildPredictionRequest(test, responses).respuestas) == test
  {
    ReadBackAfterBuild(test, responses);
  }

  /** The other direction: rebuilding a record from its demographics and
      read-back answers gives the record itself. */
  lemma BuildAfterReadBack(q: QuestionResponses)
    ensures BuildPredictionRequest(DemographicsOf(q), ReadBack(q)).respuestas == q
  {
    var m := ReadBack(q);
    var q' := BuildPredictionRequest(DemographicsOf(q), m).respuestas;
    forall k | 1 <= k <= QuestionCount
      ensures Pregunta(q', k) == Pregunta(q, k)
    {
      if Pregunta(q, k) != "" {
        ReadBackHas(q, k);
      } else if QuestionKey(k) in m {
        ReadBackFrom(q, QuestionKey(k));
        var j :| 1 <= j <= QuestionCount && QuestionKey(j) == QuestionKey(k) && Pregunta(q, j) != "";
        QuestionKeyInjective(j, k);
      }
    }
    RecordExtensionality(q', q);
  }

  // What `predict` reports

  /** What happened to the POST to the prediction endpoint: a timeout, another
      transport failure, or a response with its status and its body, parsed
      into MLPredictionResponse when it is JSON of that shape. */
  datatype Exchange =
    | TimedOut
    | RequestFailed
    | Responded(status: int, body: Option<MLPredictionResponse>)

  /** The exception the try block ends with. httpx.TimeoutException is a
      subclass of httpx.RequestError. */
  datatype Raised = TimeoutException | HTTPStatusError(status: int) | RequestError | OtherException

  predicate IsRequestError(e: Raised) {
    e.TimeoutException? || e.RequestError?
  }

  predicate IsSuccess(status: int) {
    200 <= status <= 299
  }

  /** The try block: post, raise_for_status, parse. */
  function Attempt(x: Exchange): Result<MLPredictionResponse, Raised> {
    match x
    case TimedOut => Err(TimeoutException)
    case RequestFailed => Err(RequestError)
    case Responded(status, body) =>
      if !IsSuccess(status) then Err(HTTPStatusError(status))
      else if body.None? then Err(OtherException)
      else Ok(body.value)
  }

  /** The except clauses, tried in the order they are written. */
  function Translate(e: Raised): (err: Error)
    ensures e.TimeoutException? ==> err == GatewayTimeout
    ensures e.HTTPStatusError? ==> err == ServiceUnavailable(Some(e.status))
    ensures e.RequestError? ==> err == ServiceUnavailable(None)
    ensures e.OtherException? ==> err == InternalError(UnexpectedPredictorFailure)
    ensures StatusCode(err) == (if e.TimeoutException? then 504 else if IsRequestError(e) || e.HTTPStatusError? then 503 else 500)
  {
    if e.TimeoutException? then GatewayTimeout
    else if e.HTTPStatusError? then ServiceUnavailable(Some(e.status))
    else if IsRequestError(e) then ServiceUnavailable(None)
    else InternalError(UnexpectedPredictorFailure)
  }

  /** `predict`: the parsed answer on a 2xx JSON response, otherwise the
      translated error. */
  function Predict(x: Exchange): (r: Result<MLPredictionResponse, Error>)
    ensures x.TimedOut? ==> r == Err(GatewayTimeout)
    ensures x.RequestFailed? ==> r == Err(ServiceUnavailable(None))
    ensures x.Responded? && !IsSuccess(x.status) ==> r == Err(ServiceUnavailable(Some(x.status)))
    ensures x.Responded? && IsSuccess(x.status) && x.body.None? ==> r == Err(InternalError(UnexpectedPredictorFailure))
    ensures r.Ok? <==> x.Responded? && IsSuccess(x.status) && x.body.Some?
    ensures r.Ok? ==> r.value == x.body.value
  {
    match Attempt(x)
    case Ok(resp) => Ok(resp)
    case Err(e) => Err(Translate(e))
  }

  /** A timeout is a request error too, yet it is reported as 504: its
      clause comes first. */
  lemma TimeoutBeforeRequestError()
    ensures IsRequestError(TimeoutException)
    ensures Translate(TimeoutException) == GatewayTimeout
    ensures Translate(RequestError) == ServiceUnavailable(None)
  {
  }
}
