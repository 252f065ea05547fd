/** The grade book of one subject: an ordered list of weighted assignments
    and a list of students whose grades run parallel to it, plus the editing
    buffer of the row being edited and the new-assignment form. */
module Grades {
  import opened Wrappers
  import Store

  datatype Trend = Up | Down | Stable

  datatype Student = Student(id: string, name: string, grades: seq<real>, average: real, trend: Trend)

  /** A component of the grade formula: its column name and its weight in percent. */
  datatype Assignment = Assignment(name: string, weight: real)

  /** The module's state: the assignment list, the students, the id of the
      row being edited (`null` is `None`), that row's editing buffer, and the
      new-assignment form. */
  datatype Book = Book(
    assignments: seq<Assignment>,
    students: seq<Student>,
    editing: Option<string>,
    buffer: seq<real>,
    draft: Assignment)

  /** What `addAssignment` did: returned silently, alerted, or added. */
  datatype AddOutcome = Ignored | Rejected(alert: string) | Added

  const WeightAlert: string := "La suma de los pesos no puede exceder 100%."

  const EmptyDraft: Assignment := Assignment("", 0.0)

  function TotalWeight(assignments: seq<Assignment>): real {
    Store.SumReal(assignments, (a: Assignment) => a.weight)
  }

  /** One grade's share of the average. */
  function Contribution(grade: real, a: Assignment): real {
    grade * a.weight / 100.0
  }

  /** Σ grade_i * weight_i / 100 over the positions of `grades`; the i-th
      grade is weighed by the i-th assignment. */
  function WeightedAverage(grades: seq<real>, assignments: seq<Assignment>): real
    requires |grades| <= |assignments|
    decreases |grades|
  {
    if |grades| == 0 then 0.0
    else Contribution(grades[0], assignments[0]) + WeightedAverage(grades[1..], assignments[1..])
  }

  /** `if (editingStudent)`: a row is being edited, and its id is truthy. */
  predicate Editing(b: Book) {
    b.editing.Some? && b.editing.value != ""
  }

  /** Every student's grade list, and the open editing buffer, has one entry
      per assignment. */
  ghost predicate Parity(b: Book) {
    && (forall k :: 0 <= k < |b.students| ==> |b.students[k].grades| == |b.assignments|)
    && (Editing(b) ==> |b.buffer| == |b.assignments|)
  }

  /** A student's stored average is the weighted formula over their grades. */
  ghost predicate AverageConsistent(s: Student, assignments: seq<Assignment>) {
    |s.grades| <= |assignments| && s.average == WeightedAverage(s.grades, assignments)
  }

  // ---------------------------------------------------------------------
  // Facts about the weighted average

  lemma {:induction false} WeightedAverageSnoc(grades: seq<real>, assignments: seq<Assignment>, k: nat)
    requires k < |grades| <= |assignments|
    ensures WeightedAverage(grades[..k + 1], assignments)
         == WeightedAverage(grades[..k], assignments) + Contribution(grades[k], assignments[k])
    decreases k
  {
    if k > 0 {
      WeightedAverageSnoc(grades[1..], assignments[1..], k - 1);
      assert grades[..k + 1][1..] == grades[1..][..k];
      assert grades[..k][1..] == grades[1..][..k - 1];
    }
  }

  /** The reduce in `saveGrades`, written as the left-to-right loop it is. */
  method ComputeAverage(grades: seq<real>, assignments: seq<Assignment>) returns (avg: real)
    requires |grades| <= |assignments|
    ensures avg == WeightedAverage(grades, assignments)
  {
    avg := 0.0;
    var i := 0;
    while i < |grades|
      invariant 0 <= i <= |grades|
      invariant avg == WeightedAverage(grades[..i], assignments)
    {
      WeightedAverageSnoc(grades, assignments, i);
      avg := avg + grades[i] * assignments[i].weight / 100.0;
      i := i + 1;
    }
    assert grades[..i] == grades;
  }

  /** Assignments beyond the graded positions do not enter the average, and
      a trailing 0 grade adds nothing to it. */
  lemma {:induction false} AppendZeroKeepsAverage(grades: seq<real>, assignments: seq<Assignment>, a: Assignment)
    requires |grades| <= |assignments|
    ensures WeightedAverage(grades + [0.0], assignments + [a]) == WeightedAverage(grades, assignments)
    decreases |grades|
  {
    if |grades| == 0 {
      assert (grades + [0.0])[1..] == [];
    } else {
      AppendZeroKeepsAverage(grades[1..], assignments[1..], a);
      assert (grades + [0.0])[1..] == grades[1..] + [0.0];
      assert (assignments + [a])[1..] == assignments[1..] + [a];
    }
  }

  /** With grades on the 0-10 scale and non-negative weights, the average
      lies between 0 and a tenth of the total weight, so it is at most 10
      whenever the weights add up to at most 100. */
  lemma {:induction false} AverageBounded(grades: seq<real>, assignments: seq<Assignment>)
    requires |grades| == |assignments|
    requires forall i :: 0 <= i < |grades| ==> 0.0 <= grades[i] <= 10.0
    requires forall i :: 0 <= i < |assignments| ==> assignments[i].weight >= 0.0
    ensures 0.0 <= WeightedAverage(grades, assignments) <= TotalWeight(assignments) / 10.0
    decreases |grades|
  {
    if |grades| > 0 {
      AverageBounded(grades[1..], assignments[1..]);
      var g, w := grades[0], assignments[0].weight;
      assert 0.0 <= g * w <= 10.0 * w by {
        assert 0.0 <= g <= 10.0 && w >= 0.0;
        assert (10.0 - g) * w >= 0.0;
      }
      assert Contribution(g, assignments[0]) <= w / 10.0;
    }
  }

  // ---------------------------------------------------------------------
  // Handlers

  /** `startEditing`: open a row for editing with a copy of its grades. */
  function StartEditing(b: Book, studentId: string, grades: seq<real>): (r: Book)
    ensures r.editing == Some(studentId) && r.buffer == grades
    ensures r.assignments == b.assignments && r.students == b.students && r.draft == b.draft
  {
    b.(editing := Some(studentId), buffer := grades)
  }

  /** `cancelEditing`: close the row, discarding the buffer. */
  function CancelEditing(b: Book): (r: Book)
    ensures !Editing(r) && r.buffer == []
    ensures r.assignments == b.assignments && r.students == b.students && r.draft == b.draft
  {
    b.(editing := None, buffer := [])
  }

  function Zeros(n: nat): (z: seq<real>)
    ensures |z| == n && forall i :: 0 <= i < n ==> z[i] == 0.0
  {
    seq(n, _ => 0.0)
  }

  /** `updateGrade`: write one cell of the editing buffer. Writing past the
      end grows the buffer as a JavaScript array assignment does; the gap
      positions read as 0 everywhere they are used. */
  function UpdateGrade(b: Book, index: nat, value: real): (r: Book)
    ensures |r.buffer| == if index < |b.buffer| then |b.buffer| else index + 1
    ensures r.buffer[index] == value
    ensures forall j :: 0 <= j < |b.buffer| && j != index ==> r.buffer[j] == b.buffer[j]
    ensures forall j :: |b.buffer| <= j < |r.buffer| && j != index ==> r.buffer[j] == 0.0
    ensures r.assignments == b.assignments && r.students == b.students
    ensures r.editing == b.editing && r.draft == b.draft
  {
    if index < |b.buffer| then b.(buffer := b.buffer[index := value])
    else b.(buffer := b.buffer + Zeros(index - |b.buffer|) + [value])
  }

  /** The student as `saveGrades` writes it. */
  function Saved(s: Student, buffer: seq<real>, assignments: seq<Assignment>): (t: Student)
    requires |buffer| <= |assignments|
    ensures AverageConsistent(t, assignments)
    ensures t.grades == buffer && t.id == s.id && t.name == s.name && t.trend == s.trend
  {
    s.(grades := buffer, average := WeightedAverage(buffer, assignments))
  }

  /** `saveGrades`: when a row is open, every student with its id takes the
      buffer as grades and the weighted formula as average; every other
      student is untouched and the row is closed. With no row open nothing
      changes. The formula reads one assignment per buffered grade, which the
      source does not check: a longer buffer would make it throw. */
  function SaveGrades(b: Book): (r: Book)
    requires Editing(b) ==> |b.buffer| <= |b.assignments|
    ensures !Editing(b) ==> r == b
    ensures Editing(b) ==>
      && r.editing.None? && r.buffer == []
      && r.assignments == b.assignments && r.draft == b.draft
      && |r.students| == |b.students|
      && forall k :: 0 <= k < |b.students| ==>
           if b.students[k].id == b.editing.value
           then r.students[k].grades == b.buffer && AverageConsistent(r.students[k], b.assignments)
                && r.students[k].name == b.students[k].name && r.students[k].id == b.students[k].id
                && r.students[k].trend == b.students[k].trend
           else r.students[k] == b.students[k]
  {
    if !Editing(b) then b
    else
      var id := b.editing.value;
      Book(b.assignments,
           Store.MapWhere(b.students, (s: Student) => s.id == id, (s: Student) => Saved(s, b.buffer, b.assignments)),
           None, [], b.draft)
  }

  /** The checks `addAssignment` makes, in its order: a blank name or a
      non-positive weight is ignored, a total over 100 is rejected. */
  function AddCheck(assignments: seq<Assignment>, draft: Assignment): (o: AddOutcome)
    ensures o == Added <==> draft.name != "" && draft.weight > 0.0
                            && TotalWeight(assignments) + draft.weight <= 100.0
    ensures o == Ignored <==> draft.name == "" || draft.weight <= 0.0
  {
    var total := TotalWeight(assignments) + draft.weight;
    if draft.name == "" || draft.weight <= 0.0 then Ignored
    else if total > 100.0 then Rejected(WeightAlert)
    else Added
  }

  /** `addAssignment`, as the source is written: append the form's
      assignment and a 0 grade to every student, and reset the form. The
      editing buffer is not touched. */
  function AddAssignmentAsWritten(b: Book): (r: (Book, AddOutcome))
    ensures r.1 != Added ==> r.0 == b
    ensures r.1 == Added ==> r.0.buffer == b.buffer
  {
    var o := AddCheck(b.assignments, b.draft);
    if o != Added then (b, o)
    else (b.(assignments := b.assignments + [b.draft],
             students := Store.MapWhere(b.students, _ => true, (s: Student) => s.(grades := s.grades + [0.0])),
             draft := EmptyDraft), o)
  }

  /** `addAssignment`, corrected: as written, and when a row is open its
      buffer also gains the 0 the new column shows for it. */
  function AddAssignment(b: Book): (r: (Book, AddOutcome))
    ensures r.1 == AddCheck(b.assignments, b.draft)
    ensures r.1 != Added ==> r.0 == b
    ensures r.1 == Added ==>
      && r.0.assignments == b.assignments + [b.draft]
      && |r.0.students| == |b.students|
      && (forall k :: 0 <= k < |b.students| ==>
            r.0.students[k] == b.students[k].(grades := b.students[k].grades + [0.0]))
      && r.0.draft == EmptyDraft
      && r.0.editing == b.editing
      && r.0.buffer == (if Editing(b) then b.buffer + [0.0] else b.buffer)
  {
    var (c, o) := AddAssignmentAsWritten(b);
    if o == Added && Editing(b) then (c.(buffer := b.buffer + [0.0]), o) else (c, o)
  }

  // ---------------------------------------------------------------------
  // Properties of the handlers

  /** A rejected or ignored add leaves the assignments and every student as they were. */
  lemma AddRejectedChangesNothing(b: Book)
    requires b.draft.name == "" || b.draft.weight <= 0.0
             || TotalWeight(b.assignments) + b.draft.weight > 100.0
    ensures AddAssignment(b).0 == b
    ensures AddAssignment(b).1 != Added
  {
  }

  /** An add keeps the weight total within 100 when it starts within 100. */
  lemma AddKeepsWeightBound(b: Book)
    requires TotalWeight(b.assignments) <= 100.0
    ensures TotalWeight(AddAssignment(b).0.assignments) <= 100.0
  {
    if AddAssignment(b).1 == Added {
      Store.SumRealAppend(b.assignments, b.draft, (a: Assignment) => a.weight);
    }
  }

  /** A successful add changes no student's weighted average: the new slot
      scores 0. The formula is only defined while no grade list is longer
      than the assignment list, so that is all this asks. */
  lemma AddKeepsAverages(b: Book)
    requires forall k :: 0 <= k < |b.students| ==> |b.students[k].grades| <= |b.assignments|
    requires AddAssignment(b).1 == Added
    ensures forall k :: 0 <= k < |b.students| ==>
      WeightedAverage(AddAssignment(b).0.students[k].grades, AddAssignment(b).0.assignments)
        == WeightedAverage(b.students[k].grades, b.assignments)
  {
    forall k | 0 <= k < |b.students|
      ensures WeightedAverage(b.students[k].grades + [0.0], b.assignments + [b.draft])
           == WeightedAverage(b.students[k].grades, b.assignments)
    {
      AppendZeroKeepsAverage(b.students[k].grades, b.assignments, b.draft);
    }
  }

  /** The same holds for the add as the source writes it, which differs
      only in the editing buffer. */
  lemma AddAsWrittenKeepsAverages(b: Book)
    requires forall k :: 0 <= k < |b.students| ==> |b.students[k].grades| <= |b.assignments|
    requires AddAssignmentAsWritten(b).1 == Added
    ensures |AddAssignmentAsWritten(b).0.students| == |b.students|
    ensures forall k :: 0 <= k < |b.students| ==>
      WeightedAverage(AddAssignmentAsWritten(b).0.students[k].grades, AddAssignmentAsWritten(b).0.assignments)
        == WeightedAverage(b.students[k].grades, b.assignments)
  {
    AsWrittenAgreesOutsideBuffer(b);
    AddKeepsAverages(b);
  }

  /** The corrected add keeps every grade list, and the open buffer, in step
      with the assignments. */
  lemma AddKeepsParity(b: Book)
    requires Parity(b)
    ensures Parity(AddAssignment(b).0)
  {
  }

  /** Saving keeps the grade lists in step with the assignments when the
      buffer was in step. */
  lemma SaveKeepsParity(b: Book)
    requires Parity(b)
    ensures Parity(SaveGrades(b))
  {
  }

  /** Closing the row keeps parity: nothing is left to be in step. */
  lemma CancelEditingKeepsParity(b: Book)
    requires Parity(b)
    ensures Parity(CancelEditing(b))
  {
  }

  /** Opening a row with a grade list of the right length keeps parity. */
  lemma StartEditingKeepsParity(b: Book, studentId: string, grades: seq<real>)
    requires Parity(b)
    requires |grades| == |b.assignments|
    ensures Parity(StartEditing(b, studentId, grades))
  {
  }

  /** Editing a cell the row shows keeps parity. */
  lemma UpdateGradeKeepsParity(b: Book, index: nat, value: real)
    requires Parity(b)
    requires Editing(b) ==> index < |b.assignments|
    requires !Editing(b) ==> index < |b.buffer|
    ensures Parity(UpdateGrade(b, index, value))
  {
  }

  /** The source's add agrees with the corrected one on everything but the buffer. */
  lemma AsWrittenAgreesOutsideBuffer(b: Book)
    ensures AddAssignmentAsWritten(b).0 == AddAssignment(b).0.(buffer := b.buffer)
    ensures AddAssignmentAsWritten(b).1 == AddAssignment(b).1
  {
  }

  /** As written, opening a row, adding an assignment and saving leaves that
      student with one grade fewer than there are assignments. */
  lemma ParityBrokenAsWritten()
    ensures var b := Book([Assignment("Examen 1", 50.0)],
                          [Student("1", "Ana", [9.0], 4.5, Up)],
                          None, [], Assignment("Examen 2", 50.0));
      var added := AddAssignmentAsWritten(StartEditing(b, "1", [9.0]));
      var saved := SaveGrades(added.0);
      && Parity(b)
      && added.1 == Added
      && |saved.students[0].grades| == 1
      && |saved.assignments| == 2
      && !Parity(saved)
  {
    var b := Book([Assignment("Examen 1", 50.0)],
                  [Student("1", "Ana", [9.0], 4.5, Up)],
                  None, [], Assignment("Examen 2", 50.0));
    assert TotalWeight(b.assignments) == 50.0;
    var added := AddAssignmentAsWritten(StartEditing(b, "1", [9.0]));
    assert added.1 == Added;
    assert added.0.students[0].id == "1";
    var saved := SaveGrades(added.0);
    assert saved.students[0].grades == [9.0];
  }

  /** The same sequence with the corrected add keeps parity. */
  lemma ParityKeptCorrected()
    ensures var b := Book([Assignment("Examen 1", 50.0)],
                          [Student("1", "Ana", [9.0], 4.5, Up)],
                          None, [], Assignment("Examen 2", 50.0));
      var saved := SaveGrades(AddAssignment(StartEditing(b, "1", [9.0])).0);
      Parity(saved) && saved.students[0].grades == [9.0, 0.0]
  {
    var b := Book([Assignment("Examen 1", 50.0)],
                  [Student("1", "Ana", [9.0], 4.5, Up)],
                  None, [], Assignment("Examen 2", 50.0));
    assert TotalWeight(b.assignments) == 50.0;
    var added := AddAssignment(StartEditing(b, "1", [9.0]));
    assert added.1 == Added;
    assert added.0.students[0].id == "1";
  }

  // ---------------------------------------------------------------------
  // Statistics

  predicate Passed(s: Student) { s.average >= 7.0 }
  predicate AtRisk(s: Student) { 6.0 <= s.average < 7.0 }
  predicate Failed(s: Student) { s.average < 6.0 }

  /** The class summary; the class average of an empty class is `NaN` in the
      source and `None` here. */
  datatype Summary = Summary(average: Option<real>, passed: nat, atRisk: nat, failed: nat)

  function AverageOf(s: Student): real { s.average }

  /** The share of `total` per member of a group of `n`. */
  function Mean(total: real, n: nat): (m: real)
    requires n > 0
    ensures m * (n as real) == total
  {
    total / n as real
  }

  /** The class average; `NaN` for an empty class in the source, `None` here. */
  function ClassAverage(students: seq<Student>): (a: Option<real>)
    ensures a.None? <==> |students| == 0
    ensures a.Some? ==> a.value * (|students| as real) == Store.SumReal(students, AverageOf)
  {
    if |students| == 0 then None else Some(Mean(Store.SumReal(students, AverageOf), |students|))
  }

  /** `stats`: passed, at-risk and failed partition the students. */
  function Stats(students: seq<Student>): (r: Summary)
    ensures r.passed + r.atRisk + r.failed == |students|
    ensures r.average == ClassAverage(students)
    ensures r.passed == Store.Count(students, Passed)
    ensures r.atRisk == Store.Count(students, AtRisk)
    ensures r.failed == Store.Count(students, Failed)
  {
    Store.CountPartition3(students, Passed, AtRisk, Failed);
    Summary(
      ClassAverage(students),
      Store.Count(students, Passed),
      Store.Count(students, AtRisk),
      Store.Count(students, Failed))
  }

  // ---------------------------------------------------------------------
  // Export

  /** A CSV cell: text, a grade rendered with `String(x)`, or the average
      rendered with `toFixed(2)`. */
  datatype Cell = Text(s: string) | Number(x: real) | Fixed2(x: real)

  const NameColumn: string := "Nombre"
  const AverageColumn: string := "Promedio"

  /** `headers`: Nombre, the assignment names in order, Promedio. */
  function Header(assignments: seq<Assignment>): (h: seq<string>)
    ensures |h| == |assignments| + 2
    ensures h[0] == NameColumn && h[|h| - 1] == AverageColumn
    ensures forall i :: 0 <= i < |assignments| ==> h[i + 1] == assignments[i].name
  {
    [NameColumn] + seq(|assignments|, i requires 0 <= i < |assignments| => assignments[i].name) + [AverageColumn]
  }

  /** `student.grades[index] || 0`: a missing grade reads as 0. */
  function GradeAt(grades: seq<real>, i: nat): real {
    if i < |grades| then grades[i] else 0.0
  }

  /** One export row, column by column: the name, each assignment's grade
      (0 when missing), the average. */
  function ExportRow(s: Student, assignments: seq<Assignment>): (row: seq<Cell>)
    ensures |row| == |Header(assignments)|
    ensures row[0] == Text(s.name) && row[|row| - 1] == Fixed2(s.average)
    ensures forall i :: 0 <= i < |assignments| ==>
      row[i + 1] == Number(if i < |s.grades| then s.grades[i] else 0.0)
  {
    [Text(s.name)]
      + seq(|assignments|, i requires 0 <= i < |assignments| => Number(GradeAt(s.grades, i)))
      + [Fixed2(s.average)]
  }

  /** The per-student object the source builds: keyed by column name, each
      assignment writing its grade under its own name in list order. */
  function FillGrades(m: map<string, Cell>, grades: seq<real>, assignments: seq<Assignment>, k: nat): (r: map<string, Cell>)
    requires k <= |assignments|
    ensures m.Keys <= r.Keys
    ensures forall j :: k <= j < |assignments| ==> assignments[j].name in r
    decreases |assignments| - k
  {
    if k == |assignments| then m
    else FillGrades(m[assignments[k].name := Number(GradeAt(grades, k))], grades, assignments, k + 1)
  }

  function RowObject(s: Student, assignments: seq<Assignment>): (m: map<string, Cell>)
    ensures NameColumn in m && AverageColumn in m
    ensures forall j :: 0 <= j < |assignments| ==> assignments[j].name in m
  {
    FillGrades(map[NameColumn := Text(s.name)], s.grades, assignments, 0)[AverageColumn := Fixed2(s.average)]
  }

  /** One export row as the source builds it: each header cell looked up by
      name in the row object. */
  function ExportRowAsWritten(s: Student, assignments: seq<Assignment>): (row: seq<Cell>)
    ensures |row| == |Header(assignments)|
  {
    var obj := RowObject(s, assignments);
    var h := Header(assignments);
    seq(|h|, i requires 0 <= i < |h| => obj[h[i]])
  }

  /** Column names that keep the keyed row object faithful: all distinct and
      none equal to the fixed columns. */
  predicate DistinctColumns(assignments: seq<Assignment>) {
    && (forall i, j :: 0 <= i < j < |assignments| ==> assignments[i].name != assignments[j].name)
    && (forall i :: 0 <= i < |assignments| ==> assignments[i].name != NameColumn && assignments[i].name != AverageColumn)
  }

  lemma {:induction false} FillGradesSpec(m: map<string, Cell>, grades: seq<real>, assignments: seq<Assignment>, k: nat)
    requires k <= |assignments|
    requires forall i, j :: k <= i < j < |assignments| ==> assignments[i].name != assignments[j].name
    ensures forall j :: k <= j < |assignments| ==>
      FillGrades(m, grades, assignments, k)[assignments[j].name] == Number(GradeAt(grades, j))
    ensures forall key :: key in m && (forall j :: k <= j < |assignments| ==> assignments[j].name != key) ==>
      FillGrades(m, grades, assignments, k)[key] == m[key]
    decreases |assignments| - k
  {
    if k < |assignments| {
      FillGradesSpec(m[assignments[k].name := Number(GradeAt(grades, k))], grades, assignments, k + 1);
    }
  }

  /** With distinct column names the source's keyed row and the positional
      row coincide. */
  lemma ExportRowsAgree(s: Student, assignments: seq<Assignment>)
    requires DistinctColumns(assignments)
    ensures ExportRowAsWritten(s, assignments) == ExportRow(s, assignments)
  {
    var m0 := map[NameColumn := Text(s.name)];
    FillGradesSpec(m0, s.grades, assignments, 0);
    var a := ExportRowAsWritten(s, assignments);
    var b := ExportRow(s, assignments);
    var h := Header(assignments);
    forall i | 0 <= i < |h| ensures a[i] == b[i] {
      if 0 < i < |h| - 1 {
        assert h[i] == assignments[i - 1].name;
      }
    }
  }

  /** As written, two assignments with the same name both show the later
      one's grade: the first column's grade is lost. */
  lemma DuplicateNameLosesGrade()
    ensures var s := Student("1", "Ana", [4.0, 8.0], 6.0, Stable);
      var cols := [Assignment("Tarea", 50.0), Assignment("Tarea", 50.0)];
      && ExportRowAsWritten(s, cols) == [Text("Ana"), Number(8.0), Number(8.0), Fixed2(6.0)]
      && ExportRow(s, cols) == [Text("Ana"), Number(4.0), Number(8.0), Fixed2(6.0)]
  {
    var s := Student("1", "Ana", [4.0, 8.0], 6.0, Stable);
    var cols := [Assignment("Tarea", 50.0), Assignment("Tarea", 50.0)];
    var m0 := map[NameColumn := Text("Ana")];
    var m1 := m0["Tarea" := Number(4.0)];
    var m2 := m1["Tarea" := Number(8.0)];
    assert FillGrades(m0, s.grades, cols, 0) == FillGrades(m1, s.grades, cols, 1);
    assert FillGrades(m1, s.grades, cols, 1) == m2;
    var obj := m2[AverageColumn := Fixed2(6.0)];
    assert RowObject(s, cols) == obj;
    var h := Header(cols);
    assert h == [NameColumn, "Tarea", "Tarea", AverageColumn];
    var a := ExportRowAsWritten(s, cols);
    assert a[1] == obj["Tarea"] == Number(8.0);
  }

  /** `exportGrades`, with the corrected positional rows: the header, then
      one row per student in order, whose cell under each assignment's
      column is that student's grade for that assignment (0 when missing)
      and whose last cell is the student's average. */
  function Export(b: Book): (t: (seq<string>, seq<seq<Cell>>))
    ensures t.0 == Header(b.assignments)
    ensures |t.1| == |b.students|
    ensures forall k :: 0 <= k < |b.students| ==>
      && |t.1[k]| == |t.0|
      && t.1[k][0] == Text(b.students[k].name)
      && t.1[k][|t.0| - 1] == Fixed2(b.students[k].average)
    ensures forall k, i :: 0 <= k < |b.students| && 0 <= i < |b.assignments| ==>
      t.1[k][i + 1] == Number(GradeAt(b.students[k].grades, i))
  {
    (Header(b.assignments),
     seq(|b.students|, k requires 0 <= k < |b.students| => ExportRow(b.students[k], b.assignments)))
  }

  /** When no two assignments share a name, the corrected export is exactly
      what the source's name-keyed rows produce. */
  lemma ExportAgreesAsWritten(b: Book)
    requires DistinctColumns(b.assignments)
    ensures forall k :: 0 <= k < |b.students| ==>
      Export(b).1[k] == ExportRowAsWritten(b.students[k], b.assignments)
  {
    forall k | 0 <= k < |b.students|
      ensures Export(b).1[k] == ExportRowAsWritten(b.students[k], b.assignments)
    {
      ExportRowsAgree(b.students[k], b.assignments);
    }
  }

  // ---------------------------------------------------------------------
  // The seeded book

  function SeedBook(): Book {
    Book(
      [Assignment("Examen 1", 30.0), Assignment("Tarea 1", 15.0),
       Assignment("Proyecto", 25.0), Assignment("Examen 2", 30.0)],
      [Student("1", "Ana García", [9.5, 8.7, 9.2, 8.9], 9.1, Up),
       Student("2", "Carlos López", [7.8, 8.2, 7.5, 8.0], 7.9, Stable),
       Student("3", "María Rodríguez", [9.0, 9.3, 9.1, 9.4], 9.2, Up),
       Student("4", "Pedro Martínez", [6.5, 7.2, 6.8, 7.5], 7.0, Up),
       Student("5", "Laura Sánchez", [8.8, 8.5, 8.2, 8.0], 8.4, Down)],
      None, [], EmptyDraft)
  }

  /** The seeded book has parity and a full weight total, but its stored
      averages are not the formula's: Ana's grades weigh in at 9.125, not 9.1. */
  lemma SeedFacts()
    ensures Parity(SeedBook())
    ensures TotalWeight(SeedBook().assignments) == 100.0
    ensures WeightedAverage(SeedBook().students[0].grades, SeedBook().assignments) == 9.125
    ensures !AverageConsistent(SeedBook().students[0], SeedBook().assignments)
  {
    var b := SeedBook();
    var g := b.students[0].grades;
    assert WeightedAverage(g[3..], b.assignments[3..]) == 2.67;
    assert WeightedAverage(g[2..], b.assignments[2..]) == 2.3 + 2.67;
    assert WeightedAverage(g[1..], b.assignments[1..]) == 1.305 + 2.3 + 2.67;
  }
}
