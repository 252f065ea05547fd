/** The attendance sheet of one class on one date: each student's status
    and check-in time, the marking handlers, the counters and the CSV export. */
module Attendance {
  import Store
  import Csv
  import Text

  datatype Status = Present | Late | Absent | Unmarked

  /** A status a handler can set: every status but `Unmarked`. */
  type Mark = s: Status | s != Unmarked witness Present

  /** A row of the sheet; `time` is the check-in time, "-" when absent. */
  datatype Student = Student(id: string, name: string, status: Status, time: string)

  const NoTime: string := "-"

  /** `updateAttendance`: the students with this id take the status, and the
      time "-" when absent or the current clock reading otherwise; every
      other student is untouched. */
  function UpdateAttendance(ss: seq<Student>, id: string, status: Mark, now: string): (r: seq<Student>)
    ensures |r| == |ss|
    ensures forall i :: 0 <= i < |ss| && ss[i].id != id ==> r[i] == ss[i]
    ensures forall i :: 0 <= i < |ss| && ss[i].id == id ==>
      && r[i].id == ss[i].id && r[i].name == ss[i].name && r[i].status == status
      && (r[i].time == NoTime <==> (status == Absent || now == NoTime))
      && (status != Absent ==> r[i].time == now)
  {
    var time := if status == Absent then NoTime else now;
    Store.MapWhere(ss, (s: Student) => s.id == id, (s: Student) => s.(status := status, time := time))
  }

  /** `markAllPresent`: every student present at the current clock reading. */
  function MarkAllPresent(ss: seq<Student>, now: string): (r: seq<Student>)
    ensures |r| == |ss|
    ensures forall i :: 0 <= i < |ss| ==>
      r[i].id == ss[i].id && r[i].name == ss[i].name && r[i].status == Present && r[i].time == now
  {
    Store.MapWhere(ss, _ => true, (s: Student) => s.(status := Present, time := now))
  }

  predicate IsPresent(s: Student) { s.status == Present }
  predicate IsLate(s: Student) { s.status == Late }
  predicate IsAbsent(s: Student) { s.status == Absent }
  predicate IsUnmarked(s: Student) { s.status == Unmarked }

  datatype Counts = Counts(total: nat, present: nat, late: nat, absent: nat, unmarked: nat)

  lemma {:induction false} StatusesPartition(ss: seq<Student>)
    ensures Store.Count(ss, IsPresent) + Store.Count(ss, IsLate)
          + Store.Count(ss, IsAbsent) + Store.Count(ss, IsUnmarked) == |ss|
    decreases |ss|
  {
    if |ss| > 0 {
      StatusesPartition(ss[1..]);
    }
  }

  /** `stats`: the four status counters add up to the number of students. */
  function Stats(ss: seq<Student>): (c: Counts)
    ensures c.total == |ss|
    ensures c.present + c.late + c.absent + c.unmarked == c.total
    ensures c.present == Store.Count(ss, IsPresent) && c.unmarked == Store.Count(ss, IsUnmarked)
    ensures c.late == Store.Count(ss, IsLate) && c.absent == Store.Count(ss, IsAbsent)
  {
    StatusesPartition(ss);
    Counts(|ss|, Store.Count(ss, IsPresent), Store.Count(ss, IsLate),
           Store.Count(ss, IsAbsent), Store.Count(ss, IsUnmarked))
  }

  /** After marking everyone present, everyone counts as present and no one else. */
  lemma AllPresentCounts(ss: seq<Student>, now: string)
    ensures var c := Stats(MarkAllPresent(ss, now));
      c.present == c.total && c.late == 0 && c.absent == 0 && c.unmarked == 0
  {
  }

  /** No handler sets `Unmarked`, so marking one student never raises the
      unmarked count, and lowers it when that student was unmarked. */
  lemma UpdateNeverAddsUnmarked(ss: seq<Student>, id: string, status: Mark, now: string)
    ensures Stats(UpdateAttendance(ss, id, status, now)).unmarked <= Stats(ss).unmarked
  {
    var r := UpdateAttendance(ss, id, status, now);
    UnmarkedOnlyFrom(ss, r);
  }

  lemma {:induction false} UnmarkedOnlyFrom(ss: seq<Student>, r: seq<Student>)
    requires |r| == |ss|
    requires forall i :: 0 <= i < |ss| ==> IsUnmarked(r[i]) ==> IsUnmarked(ss[i])
    ensures Store.Count(r, IsUnmarked) <= Store.Count(ss, IsUnmarked)
    decreases |ss|
  {
    if |ss| > 0 {
      UnmarkedOnlyFrom(ss[1..], r[1..]);
    }
  }

  /** `getStatusText`. */
  function StatusText(s: Status): (t: string)
    ensures t != "" && Csv.Clean(t)
  {
    match s
    case Present => "Presente"
    case Late => "Tardanza"
    case Absent => "Ausente"
    case Unmarked => "Sin marcar"
  }

  /** The status names are told apart, so the exported text names the status. */
  lemma StatusTextInjective(a: Status, b: Status)
    ensures StatusText(a) == StatusText(b) ==> a == b
  {
  }

  const Header: seq<string> := ["Nombre", "Estado", "Hora", "Fecha", "Materia"]

  /** One exported row: name, status text, time, the selected date and class. */
  function ExportRow(s: Student, date: string, subject: string): (row: seq<string>)
    ensures |row| == |Header|
    ensures row[0] == s.name && row[1] == StatusText(s.status) && row[2] == s.time
    ensures row[3] == date && row[4] == subject
  {
    [s.name, StatusText(s.status), s.time, date, subject]
  }

  function ExportRows(ss: seq<Student>, date: string, subject: string): (rows: seq<seq<string>>)
    ensures |rows| == |ss|
    ensures forall k :: 0 <= k < |ss| ==> rows[k] == ExportRow(ss[k], date, subject)
  {
    seq(|ss|, k requires 0 <= k < |ss| => ExportRow(ss[k], date, subject))
  }

  /** `exportAttendance`: the fixed header line, then one line per student. */
  /** `exportAttendance`: whatever the rows hold, the file opens with the
      fixed header line and has at least one line after it. */
  function Export(ss: seq<Student>, date: string, subject: string): (e: string)
    ensures var ls := Text.Split(e, '\n');
      |ls| >= 2 && ls[0] == Csv.Line(Header) && Text.Split(ls[0], ',') == Header
  {
    assert forall k :: 0 <= k < |Header| ==> Csv.Clean(Header[k]);
    Csv.DocumentFirstLine(Header, ExportRows(ss, date, subject));
    Csv.Document(Header, ExportRows(ss, date, subject))
  }

  /** The export reads back as the header and one five-field row per student,
      in order, as long as no name, time, date or class holds a comma or a
      newline. */
  lemma ExportReadBack(ss: seq<Student>, date: string, subject: string)
    requires forall k :: 0 <= k < |ss| ==> Csv.Clean(ss[k].name) && Csv.Clean(ss[k].time)
    requires Csv.Clean(date) && Csv.Clean(subject)
    ensures var ls := Text.Split(Export(ss, date, subject), '\n');
      && |ls| == 1 + (if |ss| == 0 then 1 else |ss|)
      && Text.Split(ls[0], ',') == Header
      && forall k :: 0 <= k < |ss| ==> Text.Split(ls[k + 1], ',') == ExportRow(ss[k], date, subject)
  {
    var rows := ExportRows(ss, date, subject);
    forall k, j | 0 <= k < |rows| && 0 <= j < |rows[k]| ensures Csv.Clean(rows[k][j]) {
    }
    assert Csv.Clean("Nombre") && Csv.Clean("Estado") && Csv.Clean("Hora");
    assert Csv.Clean("Fecha") && Csv.Clean("Materia");
    Csv.DocumentReadBack(Header, rows);
  }
}
