/** The exam editor: a working copy of one exam whose question list is
    edited in place (add, update, delete, duplicate), its settings flags,
    and the total of the questions' points. */
module EditExam {
  import opened Wrappers
  import Store

  datatype QuestionKind = MultipleChoice | TrueFalse | Essay
  datatype Difficulty = Easy | Medium | Hard

  datatype Question = Question(
    id: string, text: string, kind: QuestionKind, options: Option<seq<string>>,
    correctAnswer: Option<string>, difficulty: Difficulty, category: string, points: real)

  datatype Settings = Settings(shuffleQuestions: bool, showResults: bool, allowRetakes: bool, timeLimit: bool)

  datatype Exam = Exam(
    id: string, title: string, subject: string, duration: real, instructions: string,
    questions: seq<Question>, settings: Settings)

  /** The fields an edit may set (`Partial<Question>` without the id); an
      absent field keeps its value. */
  datatype Patch = Patch(
    text: Option<string>, kind: Option<QuestionKind>, options: Option<seq<string>>,
    correctAnswer: Option<string>, difficulty: Option<Difficulty>, category: Option<string>,
    points: Option<real>)

  const CopySuffix: string := " (Copia)"

  /** `{ ...q, ...updates }`: the patch's fields over the question's. */
  function Merge(q: Question, p: Patch): (r: Question)
    ensures r.id == q.id
    ensures r.text == p.text.GetOr(q.text) && r.kind == p.kind.GetOr(q.kind)
    ensures r.options == (if p.options.Some? then p.options else q.options)
    ensures r.correctAnswer == (if p.correctAnswer.Some? then p.correctAnswer else q.correctAnswer)
    ensures r.difficulty == p.difficulty.GetOr(q.difficulty) && r.category == p.category.GetOr(q.category)
    ensures r.points == p.points.GetOr(q.points)
  {
    Question(q.id, p.text.GetOr(q.text), p.kind.GetOr(q.kind),
             if p.options.Some? then p.options else q.options,
             if p.correctAnswer.Some? then p.correctAnswer else q.correctAnswer,
             p.difficulty.GetOr(q.difficulty), p.category.GetOr(q.category), p.points.GetOr(q.points))
  }

  /** An empty patch changes nothing. */
  lemma EmptyPatchIsIdentity(q: Question)
    ensures Merge(q, Patch(None, None, None, None, None, None, None)) == q
  {
  }

  /** `addQuestion`: append a blank multiple-choice question of medium
      difficulty, in the exam's subject, worth one point. */
  function AddQuestion(e: Exam, freshId: string): (r: Exam)
    ensures r == e.(questions := r.questions)
    ensures |r.questions| == |e.questions| + 1 && r.questions[..|e.questions|] == e.questions
    ensures var q := r.questions[|e.questions|];
      && q.id == freshId && q.text == "" && q.kind == MultipleChoice
      && q.options == Some(["", "", "", ""]) && q.correctAnswer == Some("")
      && q.difficulty == Medium && q.category == e.subject && q.points == 1.0
  {
    var q := Question(freshId, "", MultipleChoice, Some(["", "", "", ""]), Some(""), Medium, e.subject, 1.0);
    assert (e.questions + [q])[..|e.questions|] == e.questions;
    e.(questions := e.questions + [q])
  }

  /** `updateQuestion`: merge the patch into the questions with this id;
      length, order and every other question unchanged. */
  function UpdateQuestion(e: Exam, id: string, p: Patch): (r: Exam)
    ensures r == e.(questions := r.questions)
    ensures |r.questions| == |e.questions|
    ensures forall i :: 0 <= i < |e.questions| ==>
      r.questions[i] == (if e.questions[i].id == id then Merge(e.questions[i], p) else e.questions[i])
  {
    e.(questions := Store.MapWhere(e.questions, (q: Question) => q.id == id, (q: Question) => Merge(q, p)))
  }

  /** `deleteQuestion`: the questions with this id go, the rest stay in order. */
  function DeleteQuestion(e: Exam, id: string): (r: Exam)
    ensures r == e.(questions := r.questions)
    ensures Store.IsSubseq(r.questions, e.questions)
    ensures forall i :: 0 <= i < |r.questions| ==> r.questions[i].id != id && r.questions[i] in e.questions
    ensures forall i :: 0 <= i < |e.questions| && e.questions[i].id != id ==> e.questions[i] in r.questions
    ensures |r.questions| == |e.questions| - Store.Count(e.questions, (q: Question) => q.id == id)
  {
    Store.CountComplement(e.questions, (q: Question) => q.id != id, (q: Question) => q.id == id);
    e.(questions := Store.Filter(e.questions, (q: Question) => q.id != id))
  }

  /** `duplicateQuestion`: append a copy of the first question with this id,
      under a fresh id and with " (Copia)" after its text; nothing when no
      question has the id. */
  function DuplicateQuestion(e: Exam, id: string, freshId: string): (r: Exam)
    ensures r == e.(questions := r.questions)
    ensures (forall i :: 0 <= i < |e.questions| ==> e.questions[i].id != id) ==> r == e
    ensures forall i :: 0 <= i < |e.questions| && e.questions[i].id == id
                          && (forall j :: 0 <= j < i ==> e.questions[j].id != id) ==>
      r.questions == e.questions + [e.questions[i].(id := freshId, text := e.questions[i].text + CopySuffix)]
  {
    match Store.Find(e.questions, (q: Question) => q.id == id)
    case None => e
    case Some(q) => e.(questions := e.questions + [q.(id := freshId, text := q.text + CopySuffix)])
  }

  /** `totalPoints`: the points of all questions together. With no negative
      points it is non-negative and at least any one question's points. */
  function TotalPoints(e: Exam): (t: real)
    ensures |e.questions| == 0 ==> t == 0.0
    ensures (forall i :: 0 <= i < |e.questions| ==> e.questions[i].points >= 0.0) ==>
      t >= 0.0 && forall i :: 0 <= i < |e.questions| ==> e.questions[i].points <= t
  {
    if forall i :: 0 <= i < |e.questions| ==> e.questions[i].points >= 0.0 then
      Store.SumRealBounds(e.questions, (q: Question) => q.points);
      Store.SumReal(e.questions, (q: Question) => q.points)
    else Store.SumReal(e.questions, (q: Question) => q.points)
  }

  /** A new question adds one point to the total. */
  lemma AddQuestionPoints(e: Exam, freshId: string)
    ensures TotalPoints(AddQuestion(e, freshId)) == TotalPoints(e) + 1.0
  {
    var r := AddQuestion(e, freshId);
    assert r.questions == e.questions + [r.questions[|e.questions|]];
    Store.SumRealAppend(e.questions, r.questions[|e.questions|], (q: Question) => q.points);
  }

  /** A duplicate adds the duplicated question's points to the total. */
  lemma DuplicatePoints(e: Exam, id: string, freshId: string, i: nat)
    requires i < |e.questions| && e.questions[i].id == id
    requires forall j :: 0 <= j < i ==> e.questions[j].id != id
    ensures TotalPoints(DuplicateQuestion(e, id, freshId)) == TotalPoints(e) + e.questions[i].points
  {
    var c := e.questions[i].(id := freshId, text := e.questions[i].text + CopySuffix);
    Store.SumRealAppend(e.questions, c, (q: Question) => q.points);
  }

  /** An edit that sets no points leaves the total as it was. */
  lemma UpdateKeepsPointsUnlessSet(e: Exam, id: string, p: Patch)
    requires p.points.None?
    ensures TotalPoints(UpdateQuestion(e, id, p)) == TotalPoints(e)
  {
    Store.SumRealMapWhereUnchanged(e.questions, (q: Question) => q.id == id,
                                   (q: Question) => Merge(q, p), (q: Question) => q.points);
    assert UpdateQuestion(e, id, p).questions
        == Store.MapWhere(e.questions, (q: Question) => q.id == id, (q: Question) => Merge(q, p));
  }

  /** Once a question is deleted, duplicating it does nothing. */
  lemma DuplicateAfterDelete(e: Exam, id: string, freshId: string)
    ensures DuplicateQuestion(DeleteQuestion(e, id), id, freshId) == DeleteQuestion(e, id)
  {
  }

  /** Adding or duplicating under a fresh id, editing and deleting all keep
      question ids unique. */
  lemma QuestionIdsStayUnique(e: Exam, id: string, freshId: string, p: Patch)
    requires Store.UniqueIds(e.questions, (q: Question) => q.id)
    requires Store.FreshId(e.questions, (q: Question) => q.id, freshId)
    ensures Store.UniqueIds(AddQuestion(e, freshId).questions, (q: Question) => q.id)
    ensures Store.UniqueIds(DuplicateQuestion(e, id, freshId).questions, (q: Question) => q.id)
    ensures Store.UniqueIds(UpdateQuestion(e, id, p).questions, (q: Question) => q.id)
    ensures Store.UniqueIds(DeleteQuestion(e, id).questions, (q: Question) => q.id)
  {
    var n := |e.questions|;
    var a := AddQuestion(e, freshId).questions;
    assert a == e.questions + [a[n]];
    Store.AppendFreshKeepsUnique(e.questions, a[n], (q: Question) => q.id);
    var d := DuplicateQuestion(e, id, freshId).questions;
    if d != e.questions {
      assert |d| == n + 1 && d[n].id == freshId;
      assert d == e.questions + [d[n]];
      Store.AppendFreshKeepsUnique(e.questions, d[n], (q: Question) => q.id);
    }
    Store.MapWhereKeepsUnique(e.questions, (q: Question) => q.id == id,
                              (q: Question) => Merge(q, p), (q: Question) => q.id);
    Store.FilterKeepsUnique(e.questions, (q: Question) => q.id != id, (q: Question) => q.id);
  }

  /** The settings switches. */
  datatype Flag = Shuffle | ShowResults | AllowRetakes | TimeLimit

  function FlagValue(s: Settings, f: Flag): bool {
    match f
    case Shuffle => s.shuffleQuestions
    case ShowResults => s.showResults
    case AllowRetakes => s.allowRetakes
    case TimeLimit => s.timeLimit
  }

  /** A settings checkbox: its own flag takes the checked value, every other
      flag and every other part of the exam is untouched. */
  function SetFlag(e: Exam, f: Flag, checked: bool): (r: Exam)
    ensures r == e.(settings := r.settings)
    ensures FlagValue(r.settings, f) == checked
    ensures forall g :: g != f ==> FlagValue(r.settings, g) == FlagValue(e.settings, g)
  {
    match f
    case Shuffle => e.(settings := e.settings.(shuffleQuestions := checked))
    case ShowResults => e.(settings := e.settings.(showResults := checked))
    case AllowRetakes => e.(settings := e.settings.(allowRetakes := checked))
    case TimeLimit => e.(settings := e.settings.(timeLimit := checked))
  }

  /** Settings are determined by their four flags, so setting a flag to its
      current value changes nothing. */
  lemma SetFlagToCurrentIsIdentity(e: Exam, f: Flag)
    ensures SetFlag(e, f, FlagValue(e.settings, f)) == e
  {
  }

  /** Only the last click on a checkbox counts. */
  lemma SetFlagLastWins(e: Exam, f: Flag, first: bool, second: bool)
    ensures SetFlag(SetFlag(e, f, first), f, second) == SetFlag(e, f, second)
  {
  }
}
