/** Field constraints that request validation enforces before a test
    endpoint runs (app/schemas/test.py); the endpoints take them as
    preconditions. */
module TestSchemas {

  /** TestBase / TestCreate: the demographics a test starts with. */
  datatype TestCreate = TestCreate(ciclo: int, genero: string, facultad: string, practicasprepro: string)

  /** TestResponseSubmit: one answer to one question. */
  datatype ResponseSubmit = ResponseSubmit(questionId: int, answerValue: string)

  /** TestResponsesBatch: several answers at once. */
  datatype ResponsesBatch = ResponsesBatch(responses: seq<ResponseSubmit>)

  /** Default counters of a reported test: no answers yet, nineteen expected. */
  const DefaultTotalResponses: nat := 0
  const ExpectedResponses: nat := 19

  /** "Sí", with the accented i as one code point. */
  const Si: string := ['S', '\U{00ED}']

  /** `practicasprepro` matches the anchored pattern ^(Sí|No)$. */
  predicate ValidPracticas(s: string) {
    s == Si || s == "No"
  }

  predicate ValidTestCreate(d: TestCreate) {
    && 1 <= d.ciclo <= 20
    && 1 <= |d.genero| <= 50
    && 1 <= |d.facultad| <= 255
    && ValidPracticas(d.practicasprepro)
  }

  predicate ValidResponseSubmit(r: ResponseSubmit) {
    r.questionId >= 1 && 1 <= |r.answerValue| <= 100
  }

  predicate ValidBatch(b: ResponsesBatch) {
    |b.responses| >= 1 && forall i :: 0 <= i < |b.responses| ==> ValidResponseSubmit(b.responses[i])
  }
}
