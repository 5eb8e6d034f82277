/** The "new question" page (src/app/decks/questions/new/page.tsx): the
    list of answers the form edits in place, and the submit handler, an
    ordered chain of checks whose first failure is reported as a toast and
    whose success builds the multiple-choice payload for the backend. */
module NewQuestionPage {
  import opened Wrappers
  import Strings
  import opened Json

  /** One answer of the form: an editor document and the correct flag. */
  datatype Answer = Answer(content: Json, correct: bool)

  /** The form values. A field whose editor was never touched is undefined,
      here `None`. */
  datatype NewQuestionForm = NewQuestionForm(
    questionType: string,
    title: string,
    content: Option<Json>,
    layoutCols: int,
    singleAnswer: bool,
    answers: seq<Answer>)

  /** The empty editor document. */
  const EmptyDoc: Json := Obj([Member("type", Str("doc")), Member("content", Arr([]))])

  /** The element "Add Answer" appends. */
  const DefaultAnswer: Answer := Answer(EmptyDoc, false)

  // ----- the answer list -----

  function Removed(answers: seq<Answer>, index: nat): (r: seq<Answer>)
    requires index < |answers|
    ensures |r| == |answers| - 1
    ensures forall i :: 0 <= i < index ==> r[i] == answers[i]
    ensures forall i :: index <= i < |r| ==> r[i] == answers[i + 1]
  {
    answers[..index] + answers[index + 1..]
  }

  /** A copy of the answer at `index`, placed right after it. */
  function Duplicated(answers: seq<Answer>, index: nat): (r: seq<Answer>)
    requires index < |answers|
    ensures |r| == |answers| + 1
    ensures forall i :: 0 <= i <= index ==> r[i] == answers[i]
    ensures r[index + 1] == answers[index]
    ensures forall i :: index + 1 < i < |r| ==> r[i] == answers[i - 1]
  {
    answers[..index + 1] + [answers[index]] + answers[index + 1..]
  }

  /** The entries of an answer's menu. */
  datatype MenuEntry = ButtonEntry | DuplicateEntry | RemoveEntry

  /** The menu as written: every entry, "Duplicate" included, calls
      `remove(index)`. */
  function MenuActionAsWritten(answers: seq<Answer>, entry: MenuEntry, index: nat): (r: seq<Answer>)
    requires index < |answers|
    ensures |r| == |answers| - 1
    ensures forall i :: 0 <= i < index ==> r[i] == answers[i]
    ensures forall i :: index <= i < |r| ==> r[i] == answers[i + 1]
    ensures multiset(r) + multiset{answers[index]} == multiset(answers)
  {
    assert answers == answers[..index] + [answers[index]] + answers[index + 1..];
    Removed(answers, index)
  }

  /** As written, "Duplicate" loses the answer it should copy. */
  lemma DuplicateEntryRemovesAsWritten(answers: seq<Answer>, index: nat)
    requires index < |answers|
    ensures |MenuActionAsWritten(answers, DuplicateEntry, index)| == |answers| - 1
    ensures multiset(MenuActionAsWritten(answers, DuplicateEntry, index))[answers[index]]
         == multiset(answers)[answers[index]] - 1
  {
    var r := MenuActionAsWritten(answers, DuplicateEntry, index);
    assert answers == answers[..index] + [answers[index]] + answers[index + 1..];
    assert r == answers[..index] + answers[index + 1..];
  }

  /** The menu as its labels promise: "Duplicate" copies the answer. The
      unlabelled "Button" entry keeps the written behaviour. */
  function MenuAction(answers: seq<Answer>, entry: MenuEntry, index: nat): (r: seq<Answer>)
    requires index < |answers|
    ensures entry == DuplicateEntry ==> multiset(r) == multiset(answers) + multiset{answers[index]}
    ensures entry != DuplicateEntry ==> multiset(r) + multiset{answers[index]} == multiset(answers)
    ensures entry == DuplicateEntry ==> r == Duplicated(answers, index)
    ensures entry != DuplicateEntry ==> r == Removed(answers, index)
  {
    assert answers == answers[..index] + [answers[index]] + answers[index + 1..];
    match entry
    case DuplicateEntry =>
      assert answers[..index + 1] == answers[..index] + [answers[index]];
      Duplicated(answers, index)
    case _ => Removed(answers, index)
  }

  /** The form's field array of answers (`useFieldArray`), changed in place. */
  class AnswerFields {
    var answers: seq<Answer>

    /** The form has no default answers. */
    constructor ()
      ensures answers == []
    {
      answers := [];
    }

    method Append(a: Answer)
      modifies this
      ensures answers == old(answers) + [a]
    {
      answers := answers + [a];
    }

    /** "Add Answer": one empty, incorrect answer at the end. */
    method AddAnswer()
      modifies this
      ensures answers == old(answers) + [DefaultAnswer]
      ensures CountCorrect(answers) == CountCorrect(old(answers))
    {
      Append(DefaultAnswer);
      CountCorrectAppend(old(answers), DefaultAnswer);
    }

    method Remove(index: nat)
      requires index < |answers|
      modifies this
      ensures answers == Removed(old(answers), index)
    {
      answers := Removed(answers, index);
    }

    /** A click on an entry of the menu of the answer at `index`. */
    method OnMenuEntry(entry: MenuEntry, index: nat)
      requires index < |answers|
      modifies this
      ensures answers == MenuAction(old(answers), entry, index)
    {
      answers := MenuAction(answers, entry, index);
    }
  }

  // ----- submission -----

  /** `answers.filter((a) => a.correct).length`. */
  function CountCorrect(answers: seq<Answer>): (n: nat)
    ensures n <= |answers|
    ensures n == 0 <==> forall i :: 0 <= i < |answers| ==> !answers[i].correct
  {
    if |answers| == 0 then 0
    else (if answers[0].correct then 1 else 0) + CountCorrect(answers[1..])
  }

  lemma {:induction false} CountCorrectAppend(answers: seq<Answer>, a: Answer)
    ensures CountCorrect(answers + [a]) == CountCorrect(answers) + (if a.correct then 1 else 0)
    decreases |answers|
  {
    if |answers| > 0 {
      assert (answers + [a])[1..] == answers[1..] + [a];
      CountCorrectAppend(answers[1..], a);
    } else {
      assert [] + [a] == [a];
    }
  }

  /** The error toast a refused submission shows. */
  datatype Toast = Toast(title: string, description: string)

  const NoDeckId: Toast := Toast("No Deck ID", "Deck ID not provided.")
  const IncompleteQuestion: Toast := Toast("Incomplete Question", "At least 2 answers are required.")
  const NoCorrectAnswer: Toast := Toast("No Correct Answer", "At least one correct answer must be selected.")
  const MultipleCorrectAnswers: Toast := Toast("Multiple Correct Answers",
    "Single answer is set to \"Yes\". Change it to \"No\" to allow multiple correct answers.")
  const SingleCorrectAnswer: Toast := Toast("Single Correct Answer",
    "Single answer is set to \"No\". Change it to \"Yes\" to just have one correct answer")

  /** The `question` argument; `deckId` is what `parseInt` read (`None` for
      NaN), `content` the stringified document, absent when undefined. */
  datatype QuestionPayload = QuestionPayload(deckId: Option<int>, questionType: string, title: string, content: Option<string>)

  datatype AnswerPayload = AnswerPayload(content: string, correct: bool)

  /** The `multi_choice_question` argument. */
  datatype MultiChoicePayload = MultiChoicePayload(layoutCols: int, singleAnswer: bool, answers: seq<AnswerPayload>)

  /** What a submission does: show an error toast and stop, or call
      `new_multi_choice_question` with the payload. */
  datatype Submission =
    | Refused(toast: Toast)
    | Invoke(question: QuestionPayload, multiChoice: MultiChoicePayload)

  /** `data.answers.map(...)`: each answer's document stringified, its flag
      kept, in order. */
  function AnswerPayloads(answers: seq<Answer>): (ps: seq<AnswerPayload>)
    ensures |ps| == |answers|
    ensures forall i :: 0 <= i < |answers| ==>
      ps[i].correct == answers[i].correct && Decode(ps[i].content) == Some(answers[i].content)
  {
    if |answers| == 0 then []
    else
      DecodeStringify(answers[0].content);
      [AnswerPayload(Stringify(answers[0].content), answers[0].correct)] + AnswerPayloads(answers[1..])
  }

  /** The call `onSubmit` makes once every check passes: the deck id
      `parseInt` reads, the form's fields, and the answers in order. */
  function Payload(deckId: string, form: NewQuestionForm): (s: Submission)
    ensures s.Invoke?
    ensures s.question.deckId == Strings.ParseInt(deckId)
    ensures s.question.questionType == form.questionType && s.question.title == form.title
    ensures form.content.Some? <==> s.question.content.Some?
    ensures form.content.Some? ==> Decode(s.question.content.value) == form.content
    ensures s.multiChoice.layoutCols == form.layoutCols && s.multiChoice.singleAnswer == form.singleAnswer
    ensures |s.multiChoice.answers| == |form.answers|
    ensures forall i :: 0 <= i < |form.answers| ==>
      s.multiChoice.answers[i].correct == form.answers[i].correct
      && Decode(s.multiChoice.answers[i].content) == Some(form.answers[i].content)
  {
    Invoke(
      QuestionPayload(Strings.ParseInt(deckId), form.questionType, form.title, StringifyOptional(form.content)),
      MultiChoicePayload(form.layoutCols, form.singleAnswer, AnswerPayloads(form.answers)))
  }

  /** `onSubmit`: the checks in their order, the first failure reported. */
  function Submit(deckId: Option<string>, form: NewQuestionForm): (s: Submission)
    ensures s.Refused? ==>
      s.toast in [NoDeckId, IncompleteQuestion, NoCorrectAnswer, MultipleCorrectAnswers, SingleCorrectAnswer]
    ensures s.Invoke? ==>
      && Truthy(deckId) && |form.answers| >= 2 && CountCorrect(form.answers) >= 1
      && s == Payload(deckId.value, form)
  {
    var correct := CountCorrect(form.answers);
    if !Truthy(deckId) then Refused(NoDeckId)
    else if |form.answers| < 2 then Refused(IncompleteQuestion)
    else if correct < 1 then Refused(NoCorrectAnswer)
    else if form.singleAnswer && correct > 1 then Refused(MultipleCorrectAnswers)
    else if !form.singleAnswer && correct < 2 then Refused(SingleCorrectAnswer)
    else Payload(deckId.value, form)
  }

  /** A check of the chain: the condition under which it refuses, and the
      toast it shows. */
  datatype Check = Check(fails: bool, toast: Toast)

  function Checks(deckId: Option<string>, form: NewQuestionForm): seq<Check>
  {
    var correct := CountCorrect(form.answers);
    [ Check(!Truthy(deckId), NoDeckId),
      Check(|form.answers| < 2, IncompleteQuestion),
      Check(correct < 1, NoCorrectAnswer),
      Check(form.singleAnswer && correct > 1, MultipleCorrectAnswers),
      Check(!form.singleAnswer && correct < 2, SingleCorrectAnswer) ]
  }

  /** The index of the first failing check, if any. */
  function FirstFailure(checks: seq<Check>): (r: Option<nat>)
    ensures r.Some? ==>
      r.value < |checks| && checks[r.value].fails && forall j :: 0 <= j < r.value ==> !checks[j].fails
    ensures r.None? ==> forall j :: 0 <= j < |checks| ==> !checks[j].fails
  {
    if |checks| == 0 then None
    else if checks[0].fails then Some(0)
    else match FirstFailure(checks[1..])
      case None => None
      case Some(k) => Some(k + 1)
  }

  /** The checks run in their fixed order and only the first failure is
      reported; the backend is called only when none fails. */
  lemma SubmitReportsFirstFailure(deckId: Option<string>, form: NewQuestionForm)
    ensures var checks := Checks(deckId, form);
      match FirstFailure(checks)
      case Some(k) => Submit(deckId, form) == Refused(checks[k].toast)
      case None => Submit(deckId, form).Invoke?
  {
    var checks := Checks(deckId, form);
    var first := FirstFailure(checks);
    if first.Some? {
      var k := first.value;
      assert k == 0 || !checks[0].fails;
      assert k <= 1 || !checks[1].fails;
      assert k <= 2 || !checks[2].fails;
      assert k <= 3 || !checks[3].fails;
    } else {
      assert !checks[0].fails && !checks[1].fails && !checks[2].fails;
      assert !checks[3].fails && !checks[4].fails;
    }
  }

  /** A submission reaches the backend exactly when a deck is named, there
      are at least two answers, and the number of correct ones is one when
      single-answer is on and at least two when it is off. */
  lemma SubmitAcceptedIff(deckId: Option<string>, form: NewQuestionForm)
    ensures Submit(deckId, form).Invoke? <==>
      && Truthy(deckId)
      && |form.answers| >= 2
      && (form.singleAnswer ==> CountCorrect(form.answers) == 1)
      && (!form.singleAnswer ==> CountCorrect(form.answers) >= 2)
  {
  }

  /** An accepted submission carries the form over intact: the deck id
      `parseInt` reads, the answers in order with their flags, and
      documents that decode back to the form's. */
  lemma SubmitPayloadFaithful(deckId: Option<string>, form: NewQuestionForm)
    requires Submit(deckId, form).Invoke?
    ensures var s := Submit(deckId, form);
      && s.question.deckId == Strings.ParseInt(deckId.value)
      && s.question.questionType == form.questionType && s.question.title == form.title
      && (form.content.Some? <==> s.question.content.Some?)
      && (form.content.Some? ==> Decode(s.question.content.value) == form.content)
      && s.multiChoice.layoutCols == form.layoutCols
      && s.multiChoice.singleAnswer == form.singleAnswer
      && |s.multiChoice.answers| == |form.answers|
      && forall i :: 0 <= i < |form.answers| ==>
           s.multiChoice.answers[i].correct == form.answers[i].correct
           && Decode(s.multiChoice.answers[i].content) == Some(form.answers[i].content)
  {
  }

  /** Answers only ever added with "Add Answer" are all incorrect, so such a
      form is refused for its missing correct answer once it has two. */
  lemma FreshAnswersHaveNoCorrect(deckId: string, form: NewQuestionForm)
    requires deckId != ""
    requires |form.answers| >= 2
    requires forall i :: 0 <= i < |form.answers| ==> form.answers[i] == DefaultAnswer
    ensures Submit(Some(deckId), form) == Refused(NoCorrectAnswer)
  {
  }
}
