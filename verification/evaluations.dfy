/** The evaluations page: the exam list and the question bank, with their
    create, delete and status-toggle handlers. */
module Evaluations {
  import opened Wrappers
  import Store
  import Text

  datatype ExamStatus = ExamActive | Completed | ExamDraft

  /** An exam; question count and duration are the numbers typed in the form. */
  datatype Exam = Exam(
    id: string, title: string, subject: string, questions: real, duration: real,
    attempts: nat, avgScore: real, status: ExamStatus, created: string)

  datatype QuestionKind = MultipleChoice | TrueFalse | Essay
  datatype Difficulty = Easy | Medium | Hard

  /** A bank question; only multiple-choice questions carry options. */
  datatype Question = Question(
    id: string, text: string, kind: QuestionKind, options: Option<seq<string>>,
    correctAnswer: Option<string>, difficulty: Difficulty, category: string, uses: nat)

  /** The create-exam form. */
  datatype ExamForm = ExamForm(title: string, subject: string, duration: real, questions: real)

  /** The create-question form, with its four option slots. */
  datatype QuestionForm = QuestionForm(
    text: string, kind: QuestionKind, options: seq<string>, correctAnswer: string,
    difficulty: Difficulty, category: string)

  const EmptyExamForm: ExamForm := ExamForm("", "", 60.0, 10.0)
  const EmptyQuestionForm: QuestionForm := QuestionForm("", MultipleChoice, ["", "", "", ""], "", Easy, "")

  /** `createExam`: with title and subject filled in, append a draft exam with
      no attempts and a zero average, and reset the form; otherwise nothing. */
  function CreateExam(exams: seq<Exam>, form: ExamForm, freshId: string, today: string)
    : (r: (seq<Exam>, ExamForm))
    ensures form.title == "" || form.subject == "" ==> r == (exams, form)
    ensures form.title != "" && form.subject != "" ==>
      && r.0 == exams + [Exam(freshId, form.title, form.subject, form.questions, form.duration,
                              0, 0.0, ExamDraft, today)]
      && r.1 == EmptyExamForm
  {
    if form.title != "" && form.subject != "" then
      (exams + [Exam(freshId, form.title, form.subject, form.questions, form.duration, 0, 0.0, ExamDraft, today)],
       EmptyExamForm)
    else (exams, form)
  }

  /** The option slots `createQuestion` keeps: those whose trimmed text is
      non-empty, in order. */
  function KeptOptions(options: seq<string>): (r: seq<string>)
    ensures Store.IsSubseq(r, options)
    ensures forall i :: 0 <= i < |r| ==> r[i] in options && !Text.IsBlank(r[i])
    ensures forall i :: 0 <= i < |options| && !Text.IsBlank(options[i]) ==> options[i] in r
    ensures |r| == Store.Count(options, (o: string) => !Text.IsBlank(o))
  {
    forall o: string ensures (Text.Trim(o) != "") == !Text.IsBlank(o) {
      Text.TrimEmptyIffBlank(o);
    }
    Store.CountMonotone(options, (o: string) => Text.Trim(o) != "", (o: string) => !Text.IsBlank(o));
    Store.CountMonotone(options, (o: string) => !Text.IsBlank(o), (o: string) => Text.Trim(o) != "");
    Store.Filter(options, (o: string) => Text.Trim(o) != "")
  }

  /** `createQuestion`: with text and category filled in, append a question
      never used yet, keeping the non-blank options only for a multiple-choice
      question, and reset the form; otherwise nothing. */
  function CreateQuestion(bank: seq<Question>, form: QuestionForm, freshId: string)
    : (r: (seq<Question>, QuestionForm))
    ensures form.text == "" || form.category == "" ==> r == (bank, form)
    ensures form.text != "" && form.category != "" ==>
      && |r.0| == |bank| + 1 && r.0[..|bank|] == bank
      && var q := r.0[|bank|];
      && q.id == freshId && q.text == form.text && q.kind == form.kind
      && q.category == form.category && q.difficulty == form.difficulty && q.uses == 0
      && q.correctAnswer == Some(form.correctAnswer)
      && (q.options.Some? <==> form.kind == MultipleChoice)
      && (form.kind == MultipleChoice ==> q.options.value == KeptOptions(form.options))
      && r.1 == EmptyQuestionForm
  {
    if form.text != "" && form.category != "" then
      var options := if form.kind == MultipleChoice then Some(KeptOptions(form.options)) else None;
      var q := Question(freshId, form.text, form.kind, options, Some(form.correctAnswer),
                        form.difficulty, form.category, 0);
      assert (bank + [q])[..|bank|] == bank;
      (bank + [q], EmptyQuestionForm)
    else (bank, form)
  }

  /** `deleteExam`: the exams with this id go, the rest stay in order. */
  function DeleteExam(exams: seq<Exam>, id: string): (r: seq<Exam>)
    ensures Store.IsSubseq(r, exams)
    ensures forall i :: 0 <= i < |r| ==> r[i].id != id && r[i] in exams
    ensures forall i :: 0 <= i < |exams| && exams[i].id != id ==> exams[i] in r
    ensures |r| == |exams| - Store.Count(exams, (e: Exam) => e.id == id)
  {
    Store.CountComplement(exams, (e: Exam) => e.id != id, (e: Exam) => e.id == id);
    Store.Filter(exams, (e: Exam) => e.id != id)
  }

  /** `deleteQuestion`: the questions with this id go, the rest stay in order. */
  function DeleteQuestion(bank: seq<Question>, id: string): (r: seq<Question>)
    ensures Store.IsSubseq(r, bank)
    ensures forall i :: 0 <= i < |r| ==> r[i].id != id && r[i] in bank
    ensures forall i :: 0 <= i < |bank| && bank[i].id != id ==> bank[i] in r
    ensures |r| == |bank| - Store.Count(bank, (q: Question) => q.id == id)
  {
    Store.CountComplement(bank, (q: Question) => q.id != id, (q: Question) => q.id == id);
    Store.Filter(bank, (q: Question) => q.id != id)
  }

  /** The status an exam takes when toggled: active goes to draft, draft and
      completed both go to active. */
  function Toggled(s: ExamStatus): (t: ExamStatus)
    ensures t == ExamDraft <==> s == ExamActive
    ensures t != Completed
  {
    if s == ExamActive then ExamDraft else ExamActive
  }

  /** `toggleExamStatus`: the exams with this id change status; nothing else changes. */
  function ToggleExamStatus(exams: seq<Exam>, id: string): (r: seq<Exam>)
    ensures |r| == |exams|
    ensures forall i :: 0 <= i < |exams| ==>
      r[i] == (if exams[i].id == id then exams[i].(status := Toggled(exams[i].status)) else exams[i])
  {
    Store.MapWhere(exams, (e: Exam) => e.id == id, (e: Exam) => e.(status := Toggled(e.status)))
  }

  /** Toggling twice restores an active or draft exam, but turns a completed
      exam into a draft: "completed" cannot be reached back. */
  lemma ToggleTwice(exams: seq<Exam>, id: string)
    ensures var r := ToggleExamStatus(ToggleExamStatus(exams, id), id);
      forall i :: 0 <= i < |exams| ==>
        r[i].status == (if exams[i].id == id && exams[i].status == Completed then ExamDraft else exams[i].status)
  {
  }

  /** Creating under a fresh id and deleting keep exam ids unique. */
  lemma ExamIdsStayUnique(exams: seq<Exam>, form: ExamForm, freshId: string, today: string, id: string)
    requires Store.UniqueIds(exams, (e: Exam) => e.id)
    requires Store.FreshId(exams, (e: Exam) => e.id, freshId)
    ensures Store.UniqueIds(CreateExam(exams, form, freshId, today).0, (e: Exam) => e.id)
    ensures Store.UniqueIds(DeleteExam(exams, id), (e: Exam) => e.id)
  {
    var r := CreateExam(exams, form, freshId, today).0;
    if r != exams {
      Store.AppendFreshKeepsUnique(exams, r[|exams|], (e: Exam) => e.id);
    }
    Store.FilterKeepsUnique(exams, (e: Exam) => e.id != id, (e: Exam) => e.id);
  }

  /** Creating a question under a fresh id, and deleting, keep question ids unique. */
  lemma QuestionIdsStayUnique(bank: seq<Question>, form: QuestionForm, freshId: string, id: string)
    requires Store.UniqueIds(bank, (q: Question) => q.id)
    requires Store.FreshId(bank, (q: Question) => q.id, freshId)
    ensures Store.UniqueIds(CreateQuestion(bank, form, freshId).0, (q: Question) => q.id)
    ensures Store.UniqueIds(DeleteQuestion(bank, id), (q: Question) => q.id)
  {
    var r := CreateQuestion(bank, form, freshId).0;
    if r != bank {
      assert r == bank + [r[|bank|]];
      Store.AppendFreshKeepsUnique(bank, r[|bank|], (q: Question) => q.id);
    }
    Store.FilterKeepsUnique(bank, (q: Question) => q.id != id, (q: Question) => q.id);
  }
}
