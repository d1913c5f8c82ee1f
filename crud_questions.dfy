/** The question catalogue (app/crud/questions.py): listings, creation with
    options, partial update, soft and hard delete, and adding an option. */
module CrudQuestions {
  import opened Models
  import opened Store
  import Listing

  /** QuestionOptionCreate */
  datatype OptionCreate = OptionCreate(text: string, value: string, order: int)

  /** QuestionCreate: a question with at least two options. */
  datatype QuestionCreate = QuestionCreate(
    key: string,
    text: string,
    category: Option<string>,
    order: int,
    active: bool,
    options: seq<OptionCreate>)

  /** QuestionUpdate: every field optional; the key is not among them. */
  datatype QuestionUpdate = QuestionUpdate(
    text: Option<string>,
    category: Option<string>,
    order: Option<int>,
    active: Option<bool>)

  predicate ValidOptionCreate(o: OptionCreate) {
    1 <= |o.text| <= 100 && 1 <= |o.value| <= 100 && o.order >= 1
  }

  predicate ValidQuestionCreate(c: QuestionCreate) {
    && 1 <= |c.key| <= 50
    && |c.text| >= 1
    && (c.category.Some? ==> |c.category.value| <= 100)
    && c.order >= 1
    && |c.options| >= 2
    && forall i :: 0 <= i < |c.options| ==> ValidOptionCreate(c.options[i])
  }

  // Queries

  function IsActive(q: Question): bool {
    q.active
  }

  function AnyQuestion(q: Question): bool {
    true
  }

  function ByOrder(q: Question): int {
    q.order
  }

  /** The filter of get_all_questions: the active rows, or every row. */
  function QuestionFilter(activeOnly: bool): Question -> bool {
    if activeOnly then IsActive else AnyQuestion
  }

  /** get_all_questions: optionally only the active ones, by `order`, then
      the page. */
  function GetAllQuestions(questions: map<QuestionId, Question>, skip: nat, limit: nat, activeOnly: bool)
    : (rows: seq<Listing.Row<Question>>)
    ensures Listing.IsPage(rows, Listing.Ordered(questions, QuestionFilter(activeOnly), ByOrder), skip, limit)
    ensures |rows| <= limit
    ensures forall row :: row in rows ==> row.0 in questions && row.1 == questions[row.0] && (activeOnly ==> row.1.active)
    ensures forall i, j :: 0 <= i < j < |rows| ==> rows[i].1.order <= rows[j].1.order
    ensures skip == 0 && limit >= |questions| ==>
              forall id :: id in questions && (!activeOnly || questions[id].active) ==> (id, questions[id]) in rows
  {
    var keep := QuestionFilter(activeOnly);
    Listing.QueryFacts(questions, keep, ByOrder, skip, limit);
    Listing.OrderedFacts(questions, keep, ByOrder);
    Listing.Query(questions, keep, ByOrder, skip, limit)
  }

  /** get_active_questions: every active question, by `order`, unpaged. */
  function GetActiveQuestions(questions: map<QuestionId, Question>): (rows: seq<Listing.Row<Question>>)
    ensures forall row :: row in rows ==> row.0 in questions && row.1 == questions[row.0] && row.1.active
    ensures forall id :: id in questions && questions[id].active ==> (id, questions[id]) in rows
    ensures forall i, j :: 0 <= i < j < |rows| ==> rows[i].1.order <= rows[j].1.order
  {
    Listing.OrderedFacts(questions, IsActive, ByOrder);
    Listing.Ordered(questions, IsActive, ByOrder)
  }

  /** The active listing is the general one with the filter on and no
      paging. */
  lemma ActiveIsUnpagedListing(questions: map<QuestionId, Question>)
    ensures GetActiveQuestions(questions) == GetAllQuestions(questions, 0, |questions|, true)
  {
    Listing.QueryFacts(questions, IsActive, ByOrder, 0, |questions|);
  }

  // Options

  /** The options of question `q`, in insertion order. */
  function OptionsOf(options: seq<QuestionOption>, q: QuestionId): (r: seq<QuestionOption>)
    ensures forall i :: 0 <= i < |r| ==> r[i].questionId == q
  {
    if options == [] then []
    else if options[0].questionId == q then [options[0]] + OptionsOf(options[1..], q)
    else OptionsOf(options[1..], q)
  }

  lemma {:induction false} OptionsOfAppend(a: seq<QuestionOption>, b: seq<QuestionOption>, q: QuestionId)
    ensures OptionsOf(a + b, q) == OptionsOf(a, q) + OptionsOf(b, q)
  {
    if a != [] {
      assert (a + b)[1..] == a[1..] + b;
      OptionsOfAppend(a[1..], b, q);
    } else {
      assert a + b == b;
    }
  }

  lemma {:induction false} OptionsOfNone(options: seq<QuestionOption>, q: QuestionId)
    requires forall i :: 0 <= i < |options| ==> options[i].questionId != q
    ensures OptionsOf(options, q) == []
  {
    if options != [] {
      OptionsOfNone(options[1..], q);
    }
  }

  lemma {:induction false} OptionsOfAll(options: seq<QuestionOption>, q: QuestionId)
    requires forall i :: 0 <= i < |options| ==> options[i].questionId == q
    ensures OptionsOf(options, q) == options
  {
    if options != [] {
      OptionsOfAll(options[1..], q);
    }
  }

  /** The option rows created for question `q` from `opts`, numbered from
      `firstId`. */
  function OptionRows(firstId: OptionId, q: QuestionId, opts: seq<OptionCreate>): (rows: seq<QuestionOption>)
    ensures |rows| == |opts|
    ensures forall i :: 0 <= i < |rows| ==>
              rows[i] == QuestionOption(firstId + i, q, opts[i].text, opts[i].value, opts[i].order)
  {
    seq(|opts|, i requires 0 <= i < |opts| => QuestionOption(firstId + i, q, opts[i].text, opts[i].value, opts[i].order))
  }

  /** Whether some question already has the key. */
  predicate KeyInUse(questions: map<QuestionId, Question>, key: string) {
    exists id :: id in questions && questions[id].key == key
  }

  /** The loop of create_question: one option row per supplied option, in
      order, each numbered from the option sequence and linked to `q`. */
  method AppendOptions(db: Database, q: QuestionId, opts: seq<OptionCreate>)
    requires db.Valid() && q in db.questions
    modifies db`options, db`nextOptionId
    ensures db.Valid()
    ensures db.nextOptionId == old(db.nextOptionId) + |opts|
    ensures db.options == old(db.options) + OptionRows(old(db.nextOptionId), q, opts)
  {
    var i := 0;
    while i < |opts|
      invariant 0 <= i <= |opts|
      invariant db.nextOptionId == old(db.nextOptionId) + i
      invariant db.options == old(db.options) + OptionRows(old(db.nextOptionId), q, opts[..i])
      invariant OptionsReferQuestions(db.options, db.questions)
    {
      var o := opts[i];
      db.options := db.options + [QuestionOption(db.nextOptionId, q, o.text, o.value, o.order)];
      db.nextOptionId := db.nextOptionId + 1;
      assert OptionRows(old(db.nextOptionId), q, opts[..i + 1])
          == OptionRows(old(db.nextOptionId), q, opts[..i]) + [QuestionOption(old(db.nextOptionId) + i, q, o.text, o.value, o.order)];
      i := i + 1;
    }
    assert opts[..i] == opts;
  }

  /** create_question: a duplicate key is rejected and nothing is inserted;
      otherwise the question gets the next id and exactly the supplied
      options, in the order supplied. */
  method CreateQuestion(db: Database, data: QuestionCreate) returns (r: Result<QuestionId, Error>)
    requires db.Valid() && ValidQuestionCreate(data)
    modifies db`questions, db`nextQuestionId, db`options, db`nextOptionId
    ensures db.Valid()
    ensures KeyInUse(old(db.questions), data.key) <==> r.Err?
    ensures r.Err? ==>
              && r.error == BadRequest(DuplicateQuestionKey)
              && db.questions == old(db.questions) && db.options == old(db.options)
    ensures r.Ok? ==>
              && r.value == old(db.nextQuestionId) && r.value !in old(db.questions)
              && db.questions == old(db.questions)[r.value := Question(data.key, data.text, data.category, data.order, data.active)]
              && db.options == old(db.options) + OptionRows(old(db.nextOptionId), r.value, data.options)
              && OptionsOf(db.options, r.value) == OptionRows(old(db.nextOptionId), r.value, data.options)
  {
    if exists id :: id in db.questions && db.questions[id].key == data.key {
      return Err(BadRequest(DuplicateQuestionKey));
    }
    var q := db.nextQuestionId;
    OptionsOfNone(db.options, q);
    db.questions := db.questions[q := Question(data.key, data.text, data.category, data.order, data.active)];
    db.nextQuestionId := q + 1;
    AppendOptions(db, q, data.options);
    var rows := OptionRows(old(db.nextOptionId), q, data.options);
    OptionsOfAppend(old(db.options), rows, q);
    OptionsOfAll(rows, q);
    r := Ok(q);
  }

  /** The question after a partial update: each supplied field replaces the
      stored one; the key is never touched. */
  function Patched(question: Question, upd: QuestionUpdate): Question {
    Question(
      question.key,
      if upd.text.Some? then upd.text.value else question.text,
      if upd.category.Some? then upd.category else question.category,
      if upd.order.Some? then upd.order.value else question.order,
      if upd.active.Some? then upd.active.value else question.active)
  }

  /** A patch keeps the key, so the keys stay unique; fields not supplied
      keep their values; an empty patch changes nothing. */
  lemma PatchKeepsKeysUnique(questions: map<QuestionId, Question>, id: QuestionId, upd: QuestionUpdate)
    requires id in questions && UniqueQuestionKeys(questions)
    ensures UniqueQuestionKeys(questions[id := Patched(questions[id], upd)])
    ensures Patched(questions[id], upd).key == questions[id].key
    ensures upd.text.None? ==> Patched(questions[id], upd).text == questions[id].text
    ensures upd.category.None? ==> Patched(questions[id], upd).category == questions[id].category
    ensures upd.order.None? ==> Patched(questions[id], upd).order == questions[id].order
    ensures upd.active.None? ==> Patched(questions[id], upd).active == questions[id].active
    ensures upd == QuestionUpdate(None, None, None, None) ==> Patched(questions[id], upd) == questions[id]
  {
  }

  method UpdateQuestion(db: Database, id: QuestionId, upd: QuestionUpdate) returns (r: Result<Question, Error>)
    requires db.Valid()
    modifies db`questions
    ensures db.Valid()
    ensures id !in old(db.questions) ==> r == Err(NotFound(QuestionMissing)) && db.questions == old(db.questions)
    ensures id in old(db.questions) ==>
              && r == Ok(Patched(old(db.questions[id]), upd))
              && db.questions == old(db.questions)[id := r.value]
  {
    if id !in db.questions {
      return Err(NotFound(QuestionMissing));
    }
    var question := db.questions[id];
    if upd.text.Some? {
      question := question.(text := upd.text.value);
    }
    if upd.category.Some? {
      question := question.(category := upd.category);
    }
    if upd.order.Some? {
      question := question.(order := upd.order.value);
    }
    if upd.active.Some? {
      question := question.(active := upd.active.value);
    }
    PatchKeepsKeysUnique(db.questions, id, upd);
    db.questions := db.questions[id := question];
    r := Ok(question);
  }

  method DeactivateQuestion(db: Database, id: QuestionId) returns (r: Result<Question, Error>)
    requires db.Valid()
    modifies db`questions
    ensures db.Valid()
    ensures id !in old(db.questions) ==> r == Err(NotFound(QuestionMissing)) && db.questions == old(db.questions)
    ensures id in old(db.questions) ==>
              && r == Ok(old(db.questions[id]).(active := false))
              && db.questions == old(db.questions)[id := r.value]
  {
    if id !in db.questions {
      return Err(NotFound(QuestionMissing));
    }
    var question := db.questions[id].(active := false);
    PatchKeepsKeysUnique(db.questions, id, QuestionUpdate(None, None, None, Some(false)));
    db.questions := db.questions[id := question];
    r := Ok(question);
  }

  /** A soft delete takes the question out of the active listing and
      nothing else out of it. */
  lemma DeactivatedLeavesActiveListing(questions: map<QuestionId, Question>, id: QuestionId)
    requires id in questions
    ensures forall row :: row in GetActiveQuestions(questions[id := questions[id].(active := false)]) ==>
              row.0 != id && row in GetActiveQuestions(questions)
  {
  }

  /** The options that survive deleting question `q`. */
  function OptionsWithout(options: seq<QuestionOption>, q: QuestionId): (r: seq<QuestionOption>)
    ensures |r| <= |options|
    ensures forall i :: 0 <= i < |r| ==> r[i].questionId != q && r[i] in options
    ensures forall o :: o in options && o.questionId != q ==> o in r
  {
    if options == [] then []
    else if options[0].questionId == q then OptionsWithout(options[1..], q)
    else [options[0]] + OptionsWithout(options[1..], q)
  }

  /** Whether some answer still refers to the question. */
  predicate Answered(answers: map<AnswerKey, Answer>, q: QuestionId) {
    exists k :: k in answers && k.1 == q
  }

  /** The delete-orphan cascade: the question's options go first. */
  method RemoveOptionsOf(db: Database, id: QuestionId)
    requires db.Valid()
    modifies db`options
    ensures db.Valid()
    ensures db.options == OptionsWithout(old(db.options), id)
  {
    var kept := OptionsWithout(db.options, id);
    forall i | 0 <= i < |kept|
      ensures kept[i].questionId in db.questions
    {
      var j :| 0 <= j < |db.options| && db.options[j] == kept[i];
    }
    db.options := kept;
  }

  /** The question row itself, once nothing refers to it. */
  method RemoveQuestionRow(db: Database, id: QuestionId)
    requires db.Valid()
    requires !Answered(db.answers, id)
    requires forall i :: 0 <= i < |db.options| ==> db.options[i].questionId != id
    modifies db`questions
    ensures db.Valid()
    ensures db.questions == old(db.questions) - {id}
  {
    db.questions := db.questions - {id};
  }

  /** delete_question: false for an absent question. The question's options
      go with it (delete-orphan cascade), but its answers have no cascade:
      the session nulls their NOT NULL question_id and the commit fails, so
      an answered question cannot be deleted and nothing changes. */
  method DeleteQuestion(db: Database, id: QuestionId) returns (r: Result<bool, Error>)
    requires db.Valid()
    modifies db`questions, db`options
    ensures db.Valid()
    ensures id !in old(db.questions) ==> r == Ok(false)
    ensures id in old(db.questions) && Answered(db.answers, id) ==> r == Err(InternalError(IntegrityViolation))
    ensures id in old(db.questions) && !Answered(db.answers, id) ==> r == Ok(true)
    ensures r == Ok(true) ==>
              && db.questions == old(db.questions) - {id}
              && db.options == OptionsWithout(old(db.options), id)
              && OptionsOf(db.options, id) == []
    ensures r != Ok(true) ==> db.questions == old(db.questions) && db.options == old(db.options)
  {
    if id !in db.questions {
      return Ok(false);
    }
    if exists k :: k in db.answers && k.1 == id {
      return Err(InternalError(IntegrityViolation));
    }
    RemoveOptionsOf(db, id);
    OptionsOfNone(db.options, id);
    RemoveQuestionRow(db, id);
    r := Ok(true);
  }

  /** create_question_option: 404 for a missing question; otherwise one
      option row is appended to that question's options. */
  method CreateQuestionOption(db: Database, q: QuestionId, data: OptionCreate) returns (r: Result<QuestionOption, Error>)
    requires db.Valid() && ValidOptionCreate(data)
    modifies db`options, db`nextOptionId
    ensures db.Valid()
    ensures q !in db.questions <==> r.Err?
    ensures r.Err? ==> r.error == NotFound(QuestionMissing) && db.options == old(db.options) && db.nextOptionId == old(db.nextOptionId)
    ensures r.Ok? ==>
              && r.value == QuestionOption(old(db.nextOptionId), q, data.text, data.value, data.order)
              && db.options == old(db.options) + [r.value]
              && OptionsOf(db.options, q) == OptionsOf(old(db.options), q) + [r.value]
              && forall other :: other != q ==> OptionsOf(db.options, other) == OptionsOf(old(db.options), other)
  {
    if q !in db.questions {
      return Err(NotFound(QuestionMissing));
    }
    var option := QuestionOption(db.nextOptionId, q, data.text, data.value, data.order);
    forall other
      ensures OptionsOf(db.options + [option], other)
           == OptionsOf(db.options, other) + (if other == q then [option] else [])
    {
      OptionsOfAppend(db.options, [option], other);
      assert [option][1..] == [];
    }
    db.options := db.options + [option];
    db.nextOptionId := db.nextOptionId + 1;
    r := Ok(option);
  }
}
