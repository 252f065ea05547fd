# School dashboard state handlers, in Dafny

The system is a school-management dashboard. Each of its pages is a React
component that keeps its records in component state and changes them through
small handlers. This project lifts those handlers and the views derived from
them out of React. It models them as pure functions over immutable sequences
of records and proves what each does.

The pages covered:

- the grade book: weighted assignments, per-student grade lists, the editing
  buffer, statistics and the export rows;
- the notification centre: read/unread marking, deletion, filter tabs, the
  unread count and the relative-time label;
- the attendance sheet: marking, the four-way statistics and the CSV export;
- the administration console: user creation, status toggling, deletion with
  audit-log entries, search, counters and exports;
- the material library: file typing by extension, the upload size guard,
  download and view counters, the filter and the totals;
- the evaluations page: the exam list and the question bank;
- the exam editor: the question list, total points and the settings flags;
- the communication centre: sending a message, forums, and the tab badges.

Layout:

- `wrappers.dfy`: `Option`.
- `text.dfy`: the JavaScript string operations the handlers use: `trim`,
  `toLowerCase`, `includes`, `split`/`join` and number-to-text.
- `store.dfy`: the generic list patterns. These are "change the records
  whose id matches" (`MapWhere`), "drop the records whose id matches"
  (`Filter`), `find`, `filter(...).length` (`Count`) and `reduce` sums, with
  their lemmas.
- `csv.dfy`: comma/newline CSV lines and their read-back.
- One module per page: `grades.dfy`, `notifications.dfy`, `attendance.dfy`,
  `admin.dfy`, `library.dfy`, `evaluations.dfy`, `edit_exam.dfy`,
  `communication.dfy`.

Inputs the browser supplies are parameters of the handlers:

- each identifier made by `Date.now()`. Each reading is its own parameter,
  so `createUser`'s user id and log-entry id are two parameters;
- every clock reading: `toLocaleTimeString`, `toLocaleString` and ISO dates;
- the answer of `window.confirm`;
- the object URL of an uploaded file;
- the formatted size label.

Grades, weights, question points and exam durations are `real`. The exam
editor's four settings checkboxes (`EditExamModal.tsx` lines 436-439,
455-458, 474-477 and 493-496) are one function, `EditExam.SetFlag`, over a
flag name.

Three facts about the code shape the model:

- **Identifiers.** A new id is `Date.now().toString()`, and no handler
  checks that it is unused. The model never assumes ids are unique. Its
  uniqueness lemmas take as a precondition that the new id is fresh.
- **Stored averages.** The seeded averages are not the weighted formula.
  For example, Ana's grades weigh in at 9.125, but 9.1 is stored
  (`Grades.SeedFacts`). The formula is proved only for students just
  written by `saveGrades`.
- **Grade-list parity.** Adding an assignment while a row is being edited
  leaves that row's buffer one grade short, and saving writes the short list
  (second finding below).

## Model

| member | source | states |
|---|---|---|
| Grades.ComputeAverage | src/components/Grades/GradesModule.tsx:76-78 | the left-to-right reduce over the edited grades yields the weighted average Σ gradeᵢ·weightᵢ/100, with the i-th grade weighed by the i-th assignment |
| Grades.AverageBounded | src/components/Grades/GradesModule.tsx:76-78 | with grades on the 0–10 scale and non-negative weights, the average lies between 0 and a tenth of the total weight, so at most 10 when weights sum to at most 100 |
| Grades.StartEditing | src/components/Grades/GradesModule.tsx:69-72 | opening a row records its id and copies its grades into the buffer; assignments, students and form untouched |
| Grades.CancelEditing | src/components/Grades/GradesModule.tsx:91-94 | closing the row clears the editing id and the buffer and touches nothing else |
| Grades.UpdateGrade | src/components/Grades/GradesModule.tsx:96-100 | only buffer position `index` takes the value; other positions keep theirs; length is kept when index is inside and grows to index+1 (gaps read 0) past the end |
| Grades.Saved | src/components/Grades/GradesModule.tsx:82 | the saved student has the buffer as grades and an average equal to the weighted formula, with id, name and trend kept |
| Grades.SaveGrades | src/components/Grades/GradesModule.tsx:74-89 | with a row open, exactly the students with its id take the buffer and the formula average, all others are unchanged, and the row closes; with none open nothing changes |
| Grades.AddCheck | src/components/Grades/GradesModule.tsx:103-108 | an add goes through iff the name is non-empty, the weight positive and the new total at most 100; it is ignored iff the name is empty or the weight non-positive, otherwise rejected |
| Grades.AddAssignmentAsWritten | src/components/Grades/GradesModule.tsx:102-116 | the source's add: no change unless added; when added the editing buffer is left as it was |
| Grades.AddAssignment | src/components/Grades/GradesModule.tsx:102-116 | a successful add appends the assignment, appends exactly one 0 to every student's grades and to an open buffer, and resets the form; otherwise nothing changes |
| Grades.AddRejectedChangesNothing | src/components/Grades/GradesModule.tsx:104-108 | an empty name, a non-positive weight or a total over 100 leaves the whole book unchanged |
| Grades.AddKeepsWeightBound | src/components/Grades/GradesModule.tsx:103-109 | a weight total of at most 100 stays at most 100 after an add |
| Grades.AddKeepsAverages | src/components/Grades/GradesModule.tsx:109-113 | whenever every grade list is no longer than the assignment list (so the formula is defined), a successful add changes no student's weighted average, because the new slot scores 0 |
| Grades.AddAsWrittenKeepsAverages | src/components/Grades/GradesModule.tsx:102-116 | the source's add, too, changes no student's weighted average when every grade list is no longer than the assignment list |
| Grades.AppendZeroKeepsAverage | src/components/Grades/GradesModule.tsx:76-78 | for any grade list no longer than the assignment list, a trailing 0 grade under one more assignment adds nothing to the weighted average |
| Grades.AddKeepsParity | src/components/Grades/GradesModule.tsx:109-113 | the corrected add keeps every grade list, and an open buffer, as long as the assignment list |
| Grades.SaveKeepsParity | src/components/Grades/GradesModule.tsx:74-89 | saving a buffer that matches the assignment list in length keeps parity |
| Grades.CancelEditingKeepsParity | src/components/Grades/GradesModule.tsx:91-94 | closing the row keeps every grade list in step with the assignments |
| Grades.StartEditingKeepsParity | src/components/Grades/GradesModule.tsx:69-72 | opening a row with a full-length grade list keeps parity |
| Grades.UpdateGradeKeepsParity | src/components/Grades/GradesModule.tsx:96-100 | editing a cell the row shows keeps parity |
| Grades.AsWrittenAgreesOutsideBuffer | src/components/Grades/GradesModule.tsx:102-116 | the source's add and the corrected add differ only in the editing buffer |
| Grades.ParityBrokenAsWritten | src/components/Grades/GradesModule.tsx:69-116 | as written, start editing, add an assignment and save leave the student with 1 grade under 2 assignments |
| Grades.ParityKeptCorrected | src/components/Grades/GradesModule.tsx:69-116 | the same sequence with the corrected add saves grades [9, 0] and keeps parity |
| Grades.Mean | src/components/Grades/GradesModule.tsx:166 | the class average times the class size is the sum of the averages |
| Grades.ClassAverage | src/components/Grades/GradesModule.tsx:166 | the class average exists iff the class is non-empty, and then times the class size it equals the sum of the students' averages |
| Grades.Stats | src/components/Grades/GradesModule.tsx:165-170 | passed (≥ 7), at risk (6 ≤ avg < 7) and failed (< 6) count the matching students and add up to the class size |
| Grades.Header | src/components/Grades/GradesModule.tsx:128 | the export header is Nombre, the assignment names in order, then Promedio |
| Grades.ExportRow | src/components/Grades/GradesModule.tsx:119-131 | a row has one cell per header: the name, each assignment's grade (0 when missing) and the average to two decimals |
| Grades.FillGrades | src/components/Grades/GradesModule.tsx:121-123 | the keyed row object gains a key for every assignment name |
| Grades.RowObject | src/components/Grades/GradesModule.tsx:120-125 | the keyed row object holds Nombre, Promedio and every assignment name |
| Grades.ExportRowAsWritten | src/components/Grades/GradesModule.tsx:119-131 | the source's row, looked up by column name, has one cell per header |
| Grades.FillGradesSpec | src/components/Grades/GradesModule.tsx:121-123 | with distinct names each assignment's key holds its own grade and other keys keep their values |
| Grades.ExportRowsAgree | src/components/Grades/GradesModule.tsx:119-131 | with distinct column names, none equal to Nombre or Promedio, the source's keyed row equals the positional row |
| Grades.DuplicateNameLosesGrade | src/components/Grades/GradesModule.tsx:121-131 | two assignments named "Tarea" both export the second grade, losing the first |
| Grades.Export | src/components/Grades/GradesModule.tsx:118-131 | the corrected export: the header, then one row per student in order, each cell under an assignment holding that student's grade for it (0 when missing), the first cell the name and the last the average |
| Grades.ExportAgreesAsWritten | src/components/Grades/GradesModule.tsx:118-131 | when no two assignments share a name, every row of the corrected export is the row the source builds |
| Grades.SeedFacts | src/components/Grades/GradesModule.tsx:24-67 | the seeded book has parity and weights summing to 100, but Ana's stored 9.1 is not the formula's 9.125 |
| Notifications.MarkAsRead | src/components/Notifications/NotificationCenter.tsx:99-103 | the notifications with the id become read; length, order and every other entry unchanged |
| Notifications.MarkAsUnread | src/components/Notifications/NotificationCenter.tsx:105-109 | the notifications with the id become unread; nothing else changes |
| Notifications.UnreadUndoesRead | src/components/Notifications/NotificationCenter.tsx:99-109 | marking unread undoes marking read when the targeted entries were unread |
| Notifications.MarkAsReadIdempotent | src/components/Notifications/NotificationCenter.tsx:99-103 | marking read twice is marking once |
| Notifications.MarkAsReadUnreadCount | src/components/Notifications/NotificationCenter.tsx:99-103 | marking read lowers the unread count by exactly the number of unread entries with that id |
| Notifications.Delete | src/components/Notifications/NotificationCenter.tsx:111-113 | exactly the entries with the id go, the rest stay in order, and the length drops by their number |
| Notifications.DeleteKeepsUnique | src/components/Notifications/NotificationCenter.tsx:111-113 | deleting keeps identifiers unique |
| Notifications.MarkAllAsRead | src/components/Notifications/NotificationCenter.tsx:115-117 | every entry becomes read in place, so the unread count is 0 |
| Notifications.ClearAll | src/components/Notifications/NotificationCenter.tsx:119-121 | nothing is left: no unread entry and every tab is empty |
| Notifications.Filtered | src/components/Notifications/NotificationCenter.tsx:155-159 | a tab shows, in order, exactly the entries it accepts, as many as it accepts (duplicates included); the "all" tab shows the list unchanged |
| Notifications.FilterAllIsIdentity | src/components/Notifications/NotificationCenter.tsx:156 | a filter that accepts every entry returns the list itself |
| Notifications.UnreadCount | src/components/Notifications/NotificationCenter.tsx:161 | the unread count is at most the list length and is 0 iff every entry is read |
| Notifications.UnreadTabMatchesCount | src/components/Notifications/NotificationCenter.tsx:155-161 | the unread tab shows exactly as many entries as the unread count |
| Notifications.Bucket | src/components/Notifications/NotificationCenter.tsx:144-152 | "now" iff the difference is under a minute (negatives included); otherwise the largest unit with a non-zero count, n·unit ≤ diff < (n+1)·unit |
| Notifications.NestedFloor | src/components/Notifications/NotificationCenter.tsx:145-147 | flooring to minutes, then hours, then days equals flooring straight to hours or days |
| Notifications.FormatTime | src/components/Notifications/NotificationCenter.tsx:141-153 | "ahora" iff under a minute; otherwise "hace N día/hora/minuto" with N the whole days, hours or minutes |
| Notifications.PluralIffMany | src/components/Notifications/NotificationCenter.tsx:149-151 | the label ends in "s" iff the count is above one |
| Attendance.UpdateAttendance | src/components/Attendance/AttendanceModule.tsx:25-35 | only students with the id change: they take the status, and the time "-" when absent or the clock reading otherwise |
| Attendance.MarkAllPresent | src/components/Attendance/AttendanceModule.tsx:37-43 | every student becomes present at the clock reading, keeping id and name |
| Attendance.StatusesPartition | src/components/Attendance/AttendanceModule.tsx:99-105 | present, late, absent and unmarked counts add up to the number of students |
| Attendance.Stats | src/components/Attendance/AttendanceModule.tsx:99-105 | the counters count their status and add up to the total |
| Attendance.AllPresentCounts | src/components/Attendance/AttendanceModule.tsx:37-43 | after marking everyone present, present equals the total and the other counters are 0 |
| Attendance.UpdateNeverAddsUnmarked | src/components/Attendance/AttendanceModule.tsx:25-35 | marking a student never raises the unmarked count |
| Attendance.UnmarkedOnlyFrom | src/components/Attendance/AttendanceModule.tsx:104 | a rewrite that makes no new unmarked entry cannot raise the unmarked count |
| Attendance.StatusText | src/components/Attendance/AttendanceModule.tsx:79-87 | every status text is non-empty and holds no comma or newline |
| Attendance.StatusTextInjective | src/components/Attendance/AttendanceModule.tsx:79-87 | different statuses have different texts |
| Attendance.ExportRow | src/components/Attendance/AttendanceModule.tsx:46-52 | a row is name, status text, time, date and class, in header order |
| Attendance.ExportRows | src/components/Attendance/AttendanceModule.tsx:46-52 | one row per student, in order |
| Attendance.Export | src/components/Attendance/AttendanceModule.tsx:45-56 | whatever the students hold, the file opens with the header line, which splits back into the five column names, and has at least one line after it |
| Attendance.ExportReadBack | src/components/Attendance/AttendanceModule.tsx:45-56 | the export splits back into the header and one five-field row per student when no field holds a comma or newline |
| Admin.CreateUser | src/components/Admin/AdminModule.tsx:110-138 | nothing changes unless name, email and password are filled; otherwise an active user with lastLogin "Nunca" and 0 courses is appended under the user id, a success entry under the log id is prepended to the log, and the form resets |
| Admin.ToggleUsers | src/components/Admin/AdminModule.tsx:141-145 | the users with the id flip between active and inactive; every other user is unchanged |
| Admin.ToggleTwiceRestoresUsers | src/components/Admin/AdminModule.tsx:141-145 | toggling the same user twice restores the table |
| Admin.ToggleUserStatus | src/components/Admin/AdminModule.tsx:140-160 | users toggle; a log entry is prepended only when the user exists, saying "desactivado" iff the user was active before |
| Admin.DeleteUser | src/components/Admin/AdminModule.tsx:162-178 | nothing changes unless the user exists and the deletion is confirmed; then exactly that id goes, the rest keep their order, the table shrinks by the number of users with the id, and a warning entry is prepended |
| Admin.HandlersKeepIdsUnique | src/components/Admin/AdminModule.tsx:110-178 | with a fresh new id, creating, toggling and deleting keep user ids unique |
| Admin.FilteredUsers | src/components/Admin/AdminModule.tsx:208-213 | exactly the users whose name or email contains the term ignoring case and whose role passes the filter, in order, as many as match |
| Admin.EmptyTermShowsAll | src/components/Admin/AdminModule.tsx:208-213 | an empty term with the "all" filter shows every user |
| Admin.UserStats | src/components/Admin/AdminModule.tsx:259-264 | active ≤ total and teachers + students ≤ total, each counter counting its users |
| Admin.TeachersAndPupils | src/components/Admin/AdminModule.tsx:262-263 | teachers plus students never exceed the number of users |
| Admin.RoleText | src/components/Admin/AdminModule.tsx:224-231 | every role text is non-empty and holds no comma or newline |
| Admin.RoleTextInjective | src/components/Admin/AdminModule.tsx:224-231 | different roles have different texts |
| Admin.UserRow | src/components/Admin/AdminModule.tsx:183 | six fields in header order: name, email, role text, Activo/Inactivo, last login, and the courses as digits whose value is the course count |
| Admin.UserRows | src/components/Admin/AdminModule.tsx:183 | one row per user, in order |
| Admin.ExportUsers | src/components/Admin/AdminModule.tsx:180-183 | whatever the users hold, the file opens with the header line, which splits back into the six column names, and has at least one line after it |
| Admin.ExportUsersReadBack | src/components/Admin/AdminModule.tsx:180-183 | the users export splits back into the header and one six-field row per user when no name, email or last login holds a comma or newline |
| Admin.UserRowClean | src/components/Admin/AdminModule.tsx:183 | a user row has no comma or newline inside a field when its free-text fields have none |
| Admin.LogStatusText | src/components/Admin/AdminModule.tsx:197 | every log status text is non-empty and holds no comma or newline |
| Admin.LogStatusTextInjective | src/components/Admin/AdminModule.tsx:197 | different log statuses have different texts |
| Admin.LogRow | src/components/Admin/AdminModule.tsx:197 | a log line is action, user, timestamp, address and status, in header order |
| Admin.LogRows | src/components/Admin/AdminModule.tsx:197 | one log line per entry, in order |
| Admin.ExportLogs | src/components/Admin/AdminModule.tsx:194-197 | whatever the entries hold, the file opens with the header line, which splits back into the five column names, and has at least one line after it |
| Admin.ExportLogsReadBack | src/components/Admin/AdminModule.tsx:194-197 | the log export splits back into the header and one five-field row per entry when no action, user, timestamp or address holds a comma or newline |
| Library.FileTypeOf | src/components/Library/LibraryModule.tsx:108-114 | pdf iff the lower-cased text after the last dot is "pdf", video iff it is mp4/avi/mov/wmv, image iff jpg/jpeg/png/gif/bmp, document otherwise |
| Library.ExtensionClassesDisjoint | src/components/Library/LibraryModule.tsx:110-112 | no extension belongs to two of the pdf, video and image lists, so the order of the checks does not matter |
| Library.UpperCaseExtension | src/components/Library/LibraryModule.tsx:109-110 | "Guia.PDF" is a pdf: case does not matter |
| Library.LastDotDecides | src/components/Library/LibraryModule.tsx:109 | "foto.jpg.txt" is a document: only the last extension counts |
| Library.DotlessName | src/components/Library/LibraryModule.tsx:109 | a name without a dot is its own extension: "png" is an image |
| Library.Upload | src/components/Library/LibraryModule.tsx:77-106 | no file: nothing; over 100·1024·1024 bytes: refused, nothing changes; otherwise one material is appended with 0 downloads and views, the size label and today's date, titled by the form or the file name before its first dot, and the form resets |
| Library.Delete | src/components/Library/LibraryModule.tsx:141-150 | exactly the materials with the id go, the rest stay in order, and the length drops by their number |
| Library.Download | src/components/Library/LibraryModule.tsx:151-157 | the materials with the id gain one download; nothing else changes |
| Library.View | src/components/Library/LibraryModule.tsx:165-171 | the materials with the id gain one view; nothing else changes |
| Library.TotalDownloads | src/components/Library/LibraryModule.tsx:190 | the download total is never negative, is at least any one material's downloads, and is 0 iff no material was downloaded |
| Library.TotalViews | src/components/Library/LibraryModule.tsx:191 | the view total is never negative, is at least any one material's views, and is 0 iff no material was viewed |
| Library.DownloadTotals | src/components/Library/LibraryModule.tsx:191-192 | a download raises the download total by the number of materials with the id and leaves the view total alone |
| Library.ViewTotals | src/components/Library/LibraryModule.tsx:165-171 | a view raises the view total by the number of materials with the id and leaves the download total alone |
| Library.UploadKeepsTotals | src/components/Library/LibraryModule.tsx:190-192 | an upload leaves the download and view totals unchanged, because the new material starts at 0 of each |
| Library.MaterialIdsStayUnique | src/components/Library/LibraryModule.tsx:77-171 | with a fresh new id, uploading, deleting, downloading and viewing keep material ids unique |
| Library.Filtered | src/components/Library/LibraryModule.tsx:179-188 | exactly the materials whose subject equals the category ignoring case (or the category is "all") and whose title or description contains the term ignoring case, in order, as many as match |
| Library.EverythingShowsUnfiltered | src/components/Library/LibraryModule.tsx:179-188 | with every category and an empty term every material shows |
| Evaluations.CreateExam | src/components/Evaluations/EvaluationsModule.tsx:114-132 | nothing unless title and subject are filled; then a draft exam with 0 attempts and 0 average is appended and the form resets to 60 minutes, 10 questions |
| Evaluations.KeptOptions | src/components/Evaluations/EvaluationsModule.tsx:140 | the options kept are, in order, exactly those that are not all whitespace, as many as there are (repeated options included) |
| Evaluations.CreateQuestion | src/components/Evaluations/EvaluationsModule.tsx:134-158 | nothing unless text and category are filled; then a never-used question is appended, with options iff multiple-choice (the non-blank ones), and the form resets |
| Evaluations.DeleteExam | src/components/Evaluations/EvaluationsModule.tsx:160-162 | exactly the exams with the id go, the rest stay in order, and the length drops by their number |
| Evaluations.DeleteQuestion | src/components/Evaluations/EvaluationsModule.tsx:164-166 | exactly the questions with the id go, the rest stay in order, and the length drops by their number |
| Evaluations.Toggled | src/components/Evaluations/EvaluationsModule.tsx:171 | a toggled status is draft iff it was active, and never completed |
| Evaluations.ToggleExamStatus | src/components/Evaluations/EvaluationsModule.tsx:168-174 | only the exams with the id change status; nothing else changes |
| Evaluations.ToggleTwice | src/components/Evaluations/EvaluationsModule.tsx:168-174 | toggling twice restores active and draft exams but turns a completed one into a draft |
| Evaluations.ExamIdsStayUnique | src/components/Evaluations/EvaluationsModule.tsx:114-162 | with a fresh new id, creating and deleting keep exam ids unique |
| Evaluations.QuestionIdsStayUnique | src/components/Evaluations/EvaluationsModule.tsx:134-166 | with a fresh new id, creating and deleting questions keep question ids unique |
| EditExam.Merge | src/components/Evaluations/EditExamModal.tsx:73 | a patched question keeps its id and takes each field from the patch when given, else keeps its own |
| EditExam.EmptyPatchIsIdentity | src/components/Evaluations/EditExamModal.tsx:73 | an empty patch changes nothing |
| EditExam.AddQuestion | src/components/Evaluations/EditExamModal.tsx:50-65 | one question is appended: empty text, multiple choice, four empty options, medium, the exam's subject as category, 1 point |
| EditExam.UpdateQuestion | src/components/Evaluations/EditExamModal.tsx:69-76 | only questions with the id take the patch; length, order and the rest of the exam unchanged |
| EditExam.DeleteQuestion | src/components/Evaluations/EditExamModal.tsx:78-83 | exactly the questions with the id go, the rest stay in order, the question count drops by their number, and the rest of the exam is unchanged |
| EditExam.DuplicateQuestion | src/components/Evaluations/EditExamModal.tsx:85-98 | the first question with the id is appended again under a fresh id with " (Copia)" after its text; no change when the id is absent |
| EditExam.TotalPoints | src/components/Evaluations/EditExamModal.tsx:107 | an exam without questions has 0 points; with no negative points the total is non-negative and at least any one question's points |
| EditExam.AddQuestionPoints | src/components/Evaluations/EditExamModal.tsx:107 | adding a question raises the total points by 1 |
| EditExam.DuplicatePoints | src/components/Evaluations/EditExamModal.tsx:88-96 | duplicating raises the total points by the duplicated question's points |
| EditExam.UpdateKeepsPointsUnlessSet | src/components/Evaluations/EditExamModal.tsx:69-76 | an update that sets no points keeps the total points |
| EditExam.DuplicateAfterDelete | src/components/Evaluations/EditExamModal.tsx:78-98 | once a question is deleted, duplicating it does nothing |
| EditExam.QuestionIdsStayUnique | src/components/Evaluations/EditExamModal.tsx:50-98 | with a fresh new id, adding, duplicating, editing and deleting keep question ids unique |
| EditExam.SetFlag | src/components/Evaluations/EditExamModal.tsx:436-439 | a settings checkbox sets its own flag to the checked value; the other flags and the exam are unchanged |
| EditExam.SetFlagToCurrentIsIdentity | src/components/Evaluations/EditExamModal.tsx:455-458 | setting a flag to its current value changes nothing |
| EditExam.SetFlagLastWins | src/components/Evaluations/EditExamModal.tsx:474-477 | of two clicks on the same checkbox only the last counts |
| Communication.SendMessage | src/components/Communication/CommunicationModule.tsx:166-187 | an all-whitespace draft changes nothing; otherwise one own message from "Yo" with the draft is appended, the draft clears, and only the selected chat takes it as last message |
| Communication.SendChangesIffNotBlank | src/components/Communication/CommunicationModule.tsx:167 | sending changes the state iff the draft holds something besides whitespace |
| Communication.ChatBadge | src/components/Communication/CommunicationModule.tsx:261-263 | the messages badge is never negative, is at least any one chat's unread count, and is 0 (so not shown) iff every chat is read |
| Communication.SendKeepsChatBadge | src/components/Communication/CommunicationModule.tsx:261-263 | sending leaves the messages badge (the sum of unread counts) as it was |
| Communication.MarkNotificationAsRead | src/components/Communication/CommunicationModule.tsx:189-195 | only the notifications with the id become read |
| Communication.MarkReadIdempotent | src/components/Communication/CommunicationModule.tsx:189-195 | marking read twice is marking once |
| Communication.NotificationBadge | src/components/Communication/CommunicationModule.tsx:286-288 | the badge is at most the number of notifications and is 0 iff all are read |
| Communication.MarkReadLowersBadge | src/components/Communication/CommunicationModule.tsx:286-288 | marking read lowers the badge by exactly the number of unread notifications with the id |
| Communication.CreateNewForum | src/components/Communication/CommunicationModule.tsx:197-210 | a forum with 0 posts, 1 participant, active, last active "Ahora" is appended and the form closes |
| Communication.CreateClick | src/components/Communication/CommunicationModule.tsx:466-472 | nothing unless title and subject are filled; then the forum is created with them and both fields clear |
| Communication.CreateClickTwice | src/components/Communication/CommunicationModule.tsx:466-472 | a click adds a forum iff both fields are filled, and a second click adds nothing |
| Communication.CreateKeepsForumIdsUnique | src/components/Communication/CommunicationModule.tsx:197-210 | with a fresh new id, forum ids stay unique |
| Text.TrimEmptyIffBlank | src/components/Communication/CommunicationModule.tsx:167 | `trim()` yields the empty string iff every character is JavaScript whitespace |
| Text.TrimStartEmpty | src/components/Evaluations/EvaluationsModule.tsx:140 | trimming the front empties a string iff it is all whitespace |
| Text.TrimEndEmpty | src/components/Evaluations/EvaluationsModule.tsx:140 | trimming the end empties a string iff it is all whitespace |
| Text.TrimStartStopsAtText | src/components/Evaluations/EvaluationsModule.tsx:140 | after trimming the front, what is left is empty or starts with a non-space |
| Text.Lower | src/components/Admin/AdminModule.tsx:209-210 | lower-casing keeps the length and lower-cases each character |
| Text.LowerIdempotent | src/components/Library/LibraryModule.tsx:182 | lower-casing twice is lower-casing once |
| Text.ContainsIffOccurs | src/components/Admin/AdminModule.tsx:209-210 | `includes` holds iff the term occurs at some position |
| Text.ContainsEmpty | src/components/Library/LibraryModule.tsx:184-185 | every string includes the empty string, so an empty search term matches every title |
| Text.Split | src/components/Library/LibraryModule.tsx:91 | `split` yields at least one piece and no piece holds the separator |
| Text.JoinSplit | src/components/Library/LibraryModule.tsx:91 | joining the pieces of a split gives the string back |
| Text.SplitJoin | src/components/Attendance/AttendanceModule.tsx:56 | splitting a join of separator-free pieces gives the pieces back |
| Text.SplitNoSeparator | src/components/Library/LibraryModule.tsx:91 | a string without the separator splits into itself |
| Text.SplitAfterPiece | src/components/Attendance/AttendanceModule.tsx:56 | a separator-free piece followed by the separator splits off as the first piece |
| Text.BeforeFirst | src/components/Library/LibraryModule.tsx:91 | the text before the first dot is a prefix without a dot, followed by a dot or the end |
| Text.BeforeFirstIsFirstPiece | src/components/Library/LibraryModule.tsx:91 | it is the first piece of `split('.')` |
| Text.AfterLast | src/components/Library/LibraryModule.tsx:109 | the text after the last dot (`split('.').pop()`) is a suffix without a dot, preceded by a dot or the start |
| Text.NatToString | src/components/Admin/AdminModule.tsx:183 | a count renders as at least one digit, with no leading zero |
| Text.NatToStringRoundTrip | src/components/Admin/AdminModule.tsx:183 | the rendered digits read back as the count |
| Csv.Lines | src/components/Attendance/AttendanceModule.tsx:56 | one line per row, each the row's fields joined with commas |
| Csv.JoinAvoids | src/components/Attendance/AttendanceModule.tsx:56 | joining fields without a character yields a line without it |
| Csv.LineReadBack | src/components/Attendance/AttendanceModule.tsx:56 | a line of clean fields splits back at commas into its fields and holds no newline |
| Csv.DocumentFirstLine | src/components/Attendance/AttendanceModule.tsx:54-56 | whatever the rows hold, a document's first line is its header line, which splits back into the header fields |
| Csv.DocumentReadBack | src/components/Attendance/AttendanceModule.tsx:54-56 | a document of clean fields splits back into the header line and one line per row, each splitting into its row |
| Csv.CommaFieldSplits | src/components/Admin/AdminModule.tsx:183 | a field holding a comma reads back as two fields: the CSV has no quoting |

## Left out

- Rendering: JSX, the modal and tab visibility flags other than the forum form's `showNewForum` (which `Communication.CreateNewForum` closes), colour and icon lookups (`getTrendColor`, `getGradeColor`, `getRoleColor`, `getStatusColor`, `getTypeIcon` and the like). They hold no state logic.
- Browser plumbing: the `data:` URI prefix, `encodeURI`, anchor creation and `click()` downloads, `alert`, `window.open`, `URL.createObjectURL` and `revokeObjectURL`. `confirm` is a boolean parameter; the object URL and the size label are string parameters.
- Clocks: `Date.now`, `new Date()`, `toLocaleString`, `toLocaleTimeString` and ISO dates are opaque string parameters. `formatTime` is modelled on the integer millisecond difference it computes.
- The AI assistant page: its replies come from timers and `Math.random`.
- The timer in the notification centre that generates notifications at random, and the exam-sharing modal (clipboard, `window.open`, URL encoding).
- Header, sidebar, dashboard and app layout files, and the shared type declarations: navigation and types only.
- Number formatting: `toFixed(2)`, `String(x)` of a grade and `formatFileSize` (`Math.log`). The grade export's cells are a `Cell` datatype (text, number, two-decimal average) and are not rendered to characters. The grade export therefore is not run through `Csv.Document`.
- The library's `totalSize`, which parses size labels with `parseFloat`.
- Floating point: grades, weights and points are exact reals. `NaN` weights or grades are not modelled. The average of an empty class (`0/0`, `NaN`) is `None`.
- Text.Lower: lower-cases ASCII and Latin-1 capitals only. Other Unicode case mappings are the identity here.
- Grades.UpdateGrade: a write more than one past the end of a JavaScript array leaves holes, and the model fills them with 0 instead. The next `[...editingGrades]` spread turns a hole into `undefined`, and the average's `reduce` then yields `NaN`, which the model does not show. The inputs offer one index per entry of the student's grade list, so a hole needs a buffer at least two shorter than that list. That happens after the source's add runs twice while the row is open (second finding below). Under parity, which the corrected add keeps, the buffer is as long as the grade list and `Grades.UpdateGradeKeepsParity` shows no hole arises.
- Grades.SaveGrades: requires the buffer to be no longer than the assignment list. The source reads `assignments[index].weight` for every buffered grade and would throw on a longer buffer.
- EditExam.UpdateQuestion: the source's `Partial<Question>` may also overwrite the id. The patch here leaves the id out, and it cannot reset `options` or `correctAnswer` to undefined.
- The exam editor's `editingQuestion` highlight, `handleSave` and the modal's copy-on-open. They move state between components without changing it.
- Admin.RoleText: the fallback text "Sin rol" is not modelled, because the role type has exactly three values.
- The communication page's video call and mass e-mail buttons (alerts only), and its search boxes, which hold no filter logic.
- Identifier uniqueness: the model never claims the source keeps ids unique. Lemmas that need uniqueness take a fresh id as a precondition.

## Findings

| source | as written | input that shows it | evidently intended | confidence | as-written member | corrected member |
|---|---|---|---|---|---|---|
| src/components/Grades/GradesModule.tsx:119-131 | each export row is an object keyed by assignment name, read back through the header names | two assignments both named "Tarea", with grades 4 and 8: both columns export 8 | each column exports its own grade, positionally | not executed | Grades.ExportRowAsWritten, Grades.DuplicateNameLosesGrade | Grades.ExportRow, Grades.Export, Grades.ExportRowsAgree |
| src/components/Grades/GradesModule.tsx:102-116 | `addAssignment` extends every student's grades but not the open editing buffer; `saveGrades` then writes the short buffer | start editing a student, add an assignment, save: 1 grade under 2 assignments | the open buffer gains the new 0 too, so grade lists keep one entry per assignment | not executed | Grades.AddAssignmentAsWritten, Grades.ParityBrokenAsWritten | Grades.AddAssignment, Grades.AddKeepsParity, Grades.ParityKeptCorrected |
