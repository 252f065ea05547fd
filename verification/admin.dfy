/** The administration console: the user table, its audit log, the
    create/toggle/delete handlers that prepend a log entry, the search and
    role filter, the counters and the CSV exports. */
module Admin {
  import opened Wrappers
  import Store
  import Text
  import Csv

  datatype Role = Teacher | Pupil | Administrator
  datatype UserStatus = Active | Inactive

  datatype User = User(
    id: string, name: string, email: string, role: Role,
    status: UserStatus, lastLogin: string, courses: nat)

  datatype LogStatus = LogSuccess | LogError | LogWarning | LogInfo

  datatype SystemLog = SystemLog(
    id: string, action: string, user: string, timestamp: string, ip: string, status: LogStatus)

  /** The create-user form. */
  datatype NewUser = NewUser(name: string, email: string, role: Role, password: string)

  /** The console's state: users, audit log (newest first), and the form. */
  datatype Console = Console(users: seq<User>, logs: seq<SystemLog>, form: NewUser)

  const EmptyForm: NewUser := NewUser("", "", Pupil, "")
  const Actor: string := "Administrador"
  const ConsoleIp: string := "192.168.1.1"
  const NeverLoggedIn: string := "Nunca"

  /** The log entry every handler writes, under a fresh id and clock reading. */
  function LogEntry(id: string, action: string, now: string, status: LogStatus): SystemLog {
    SystemLog(id, action, Actor, now, ConsoleIp, status)
  }

  /** `createUser`: with name, email and password filled in, append an active
      user who has never logged in and has no courses, prepend a success
      entry to the log and reset the form; otherwise do nothing. The user's
      id and the log entry's id come from two separate clock readings. */
  function CreateUser(c: Console, userId: string, logId: string, now: string): (r: Console)
    ensures c.form.name == "" || c.form.email == "" || c.form.password == "" ==> r == c
    ensures c.form.name != "" && c.form.email != "" && c.form.password != "" ==>
      && r.users == c.users + [User(userId, c.form.name, c.form.email, c.form.role, Active, NeverLoggedIn, 0)]
      && r.logs == [LogEntry(logId, "Usuario creado", now, LogSuccess)] + c.logs
      && r.form == EmptyForm
  {
    if c.form.name != "" && c.form.email != "" && c.form.password != "" then
      var u := User(userId, c.form.name, c.form.email, c.form.role, Active, NeverLoggedIn, 0);
      Console(c.users + [u], [LogEntry(logId, "Usuario creado", now, LogSuccess)] + c.logs, EmptyForm)
    else c
  }

  function Flip(s: UserStatus): UserStatus {
    if s == Active then Inactive else Active
  }

  /** The user table after `toggleUserStatus`: the users with this id flip
      between active and inactive, every other user is untouched. */
  function ToggleUsers(users: seq<User>, userId: string): (r: seq<User>)
    ensures |r| == |users|
    ensures forall i :: 0 <= i < |users| ==>
      if users[i].id == userId
      then r[i] == users[i].(status := Flip(users[i].status)) && r[i].status != users[i].status
      else r[i] == users[i]
  {
    Store.MapWhere(users, (u: User) => u.id == userId, (u: User) => u.(status := Flip(u.status)))
  }

  /** Toggling the same user twice restores the table. */
  lemma ToggleTwiceRestoresUsers(users: seq<User>, userId: string)
    ensures ToggleUsers(ToggleUsers(users, userId), userId) == users
  {
    var r := ToggleUsers(ToggleUsers(users, userId), userId);
    assert forall i :: 0 <= i < |users| ==> r[i] == users[i];
  }

  /** `toggleUserStatus`: the users with this id flip between active and
      inactive; when one exists, a log entry is prepended whose text follows
      the first such user's status before the flip. */
  function ToggleUserStatus(c: Console, userId: string, freshId: string, now: string): (r: Console)
    ensures r.users == ToggleUsers(c.users, userId) && r.form == c.form
    ensures (forall i :: 0 <= i < |c.users| ==> c.users[i].id != userId) ==> r.logs == c.logs
    ensures forall i :: 0 <= i < |c.users| && c.users[i].id == userId
                          && (forall j :: 0 <= j < i ==> c.users[j].id != userId) ==>
      r.logs == [LogEntry(freshId,
                          if c.users[i].status == Active then "Usuario desactivado" else "Usuario activado",
                          now, LogInfo)] + c.logs
  {
    var users := ToggleUsers(c.users, userId);
    var found := Store.Find(c.users, (u: User) => u.id == userId);
    match found
    case None => c.(users := users)
    case Some(u) =>
      var action := if u.status == Active then "Usuario desactivado" else "Usuario activado";
      c.(users := users, logs := [LogEntry(freshId, action, now, LogInfo)] + c.logs)
  }

  /** `deleteUser`: when the user exists and the deletion is confirmed, the
      users with this id go and a warning entry is prepended; otherwise
      nothing changes. */
  function DeleteUser(c: Console, userId: string, confirmed: bool, freshId: string, now: string): (r: Console)
    ensures (forall i :: 0 <= i < |c.users| ==> c.users[i].id != userId) || !confirmed ==> r == c
    ensures (exists i :: 0 <= i < |c.users| && c.users[i].id == userId) && confirmed ==>
      && r.logs == [LogEntry(freshId, "Usuario eliminado", now, LogWarning)] + c.logs
      && r.form == c.form
      && Store.IsSubseq(r.users, c.users)
      && (forall i :: 0 <= i < |r.users| ==> r.users[i].id != userId && r.users[i] in c.users)
      && (forall i :: 0 <= i < |c.users| && c.users[i].id != userId ==> c.users[i] in r.users)
      && |r.users| == |c.users| - Store.Count(c.users, (u: User) => u.id == userId)
      && |r.users| < |c.users|
  {
    var found := Store.Find(c.users, (u: User) => u.id == userId);
    if found.Some? && confirmed then
      Store.CountComplement(c.users, (u: User) => u.id != userId, (u: User) => u.id == userId);
      c.(users := Store.Filter(c.users, (u: User) => u.id != userId),
         logs := [LogEntry(freshId, "Usuario eliminado", now, LogWarning)] + c.logs)
    else c
  }

  /** Creating under a fresh id and deleting keep user ids unique. */
  lemma HandlersKeepIdsUnique(c: Console, userId: string, confirmed: bool, freshId: string, logId: string, now: string)
    requires Store.UniqueIds(c.users, (u: User) => u.id)
    requires Store.FreshId(c.users, (u: User) => u.id, freshId)
    ensures Store.UniqueIds(CreateUser(c, freshId, logId, now).users, (u: User) => u.id)
    ensures Store.UniqueIds(DeleteUser(c, userId, confirmed, freshId, now).users, (u: User) => u.id)
    ensures Store.UniqueIds(ToggleUserStatus(c, userId, freshId, now).users, (u: User) => u.id)
  {
    var r := CreateUser(c, freshId, logId, now);
    if r != c {
      Store.AppendFreshKeepsUnique(c.users, r.users[|r.users| - 1], (u: User) => u.id);
    }
    Store.FilterKeepsUnique(c.users, (u: User) => u.id != userId, (u: User) => u.id);
    Store.MapWhereKeepsUnique(c.users, (u: User) => u.id == userId,
                              (u: User) => u.(status := Flip(u.status)), (u: User) => u.id);
  }

  /** The role filter: every role, or one. */
  datatype RoleFilter = AnyRole | OnlyRole(role: Role)

  predicate Matches(u: User, term: string, f: RoleFilter) {
    && (Text.ContainsIgnoreCase(u.name, term) || Text.ContainsIgnoreCase(u.email, term))
    && (f == AnyRole || u.role == f.role)
  }

  /** `filteredUsers`: the users whose name or email holds the term ignoring
      case, and whose role passes the filter, in order. */
  function FilteredUsers(users: seq<User>, term: string, f: RoleFilter): (r: seq<User>)
    ensures Store.IsSubseq(r, users)
    ensures forall i :: 0 <= i < |r| ==> r[i] in users && Matches(r[i], term, f)
    ensures forall i :: 0 <= i < |users| && Matches(users[i], term, f) ==> users[i] in r
    ensures |r| == Store.Count(users, (u: User) => Matches(u, term, f))
  {
    Store.Filter(users, (u: User) => Matches(u, term, f))
  }

  /** An empty search term with the `all` filter shows every user. */
  lemma EmptyTermShowsAll(users: seq<User>)
    ensures forall i :: 0 <= i < |users| ==> users[i] in FilteredUsers(users, "", AnyRole)
  {
    forall i | 0 <= i < |users| ensures Matches(users[i], "", AnyRole) {
      Text.ContainsEmpty(Text.Lower(users[i].name));
    }
  }

  datatype UserCounts = UserCounts(total: nat, active: nat, teachers: nat, students: nat)

  predicate IsActive(u: User) { u.status == Active }
  predicate IsTeacher(u: User) { u.role == Teacher }
  predicate IsPupil(u: User) { u.role == Pupil }

  /** `userStats`: active users and teachers plus students never exceed the total. */
  function UserStats(users: seq<User>): (c: UserCounts)
    ensures c.total == |users|
    ensures c.active <= c.total
    ensures c.teachers + c.students <= c.total
    ensures c.active == Store.Count(users, IsActive)
    ensures c.teachers == Store.Count(users, IsTeacher) && c.students == Store.Count(users, IsPupil)
  {
    TeachersAndPupils(users);
    UserCounts(|users|, Store.Count(users, IsActive), Store.Count(users, IsTeacher), Store.Count(users, IsPupil))
  }

  lemma {:induction false} TeachersAndPupils(users: seq<User>)
    ensures Store.Count(users, IsTeacher) + Store.Count(users, IsPupil) <= |users|
    decreases |users|
  {
    if |users| > 0 {
      TeachersAndPupils(users[1..]);
    }
  }

  /** `getRoleText`; the source's fallback "Sin rol" needs a role outside the three. */
  function RoleText(r: Role): (t: string)
    ensures t != "" && Csv.Clean(t)
  {
    match r
    case Administrator => "Administrador"
    case Teacher => "Docente"
    case Pupil => "Estudiante"
  }

  lemma RoleTextInjective(a: Role, b: Role)
    ensures RoleText(a) == RoleText(b) ==> a == b
  {
  }

  function StatusText(s: UserStatus): string {
    if s == Active then "Activo" else "Inactivo"
  }

  const UsersHeader: seq<string> := ["Nombre", "Email", "Rol", "Estado", "Último Login", "Cursos"]

  /** One line of `exportUsers`: the six fields in header order. */
  function UserRow(u: User): (row: seq<string>)
    ensures |row| == |UsersHeader|
    ensures row[0] == u.name && row[1] == u.email && row[2] == RoleText(u.role)
    ensures row[3] == (if u.status == Active then "Activo" else "Inactivo")
    ensures row[4] == u.lastLogin
    ensures forall i :: 0 <= i < |row[5]| ==> '0' <= row[5][i] <= '9'
    ensures Text.DigitsValue(row[5]) == u.courses
  {
    Text.NatToStringRoundTrip(u.courses);
    [u.name, u.email, RoleText(u.role), StatusText(u.status), u.lastLogin, Text.NatToString(u.courses)]
  }

  function UserRows(users: seq<User>): (rows: seq<seq<string>>)
    ensures |rows| == |users|
    ensures forall k :: 0 <= k < |users| ==> rows[k] == UserRow(users[k])
  {
    seq(|users|, k requires 0 <= k < |users| => UserRow(users[k]))
  }

  /** `exportUsers`: the fixed header line, then one line per user. Whatever
      the users hold, the file opens with that header line. */
  function ExportUsers(users: seq<User>): (e: string)
    ensures var ls := Text.Split(e, '\n');
      |ls| >= 2 && ls[0] == Csv.Line(UsersHeader) && Text.Split(ls[0], ',') == UsersHeader
  {
    assert forall k :: 0 <= k < |UsersHeader| ==> Csv.Clean(UsersHeader[k]);
    Csv.DocumentFirstLine(UsersHeader, UserRows(users));
    Csv.Document(UsersHeader, UserRows(users))
  }

  /** The users export reads back as its header and one six-field row per
      user, in order, when no name, email or last-login text holds a comma or
      a newline. */
  lemma ExportUsersReadBack(users: seq<User>)
    requires forall k :: 0 <= k < |users| ==>
      Csv.Clean(users[k].name) && Csv.Clean(users[k].email) && Csv.Clean(users[k].lastLogin)
    ensures var ls := Text.Split(ExportUsers(users), '\n');
      && |ls| == 1 + (if |users| == 0 then 1 else |users|)
      && Text.Split(ls[0], ',') == UsersHeader
      && forall k :: 0 <= k < |users| ==> Text.Split(ls[k + 1], ',') == UserRow(users[k])
  {
    var rows := UserRows(users);
    forall k | 0 <= k < |rows| ensures forall j :: 0 <= j < |rows[k]| ==> Csv.Clean(rows[k][j]) {
      UserRowClean(users[k]);
    }
    assert forall k :: 0 <= k < |UsersHeader| ==> Csv.Clean(UsersHeader[k]);
    Csv.DocumentReadBack(UsersHeader, rows);
  }

  lemma UserRowClean(u: User)
    requires Csv.Clean(u.name) && Csv.Clean(u.email) && Csv.Clean(u.lastLogin)
    ensures forall j :: 0 <= j < |UserRow(u)| ==> Csv.Clean(UserRow(u)[j])
  {
    var row := UserRow(u);
    assert Csv.Clean(row[3]);
    assert Csv.Clean(row[5]) by {
      assert forall i :: 0 <= i < |row[5]| ==> row[5][i] != ',' && row[5][i] != '\n';
    }
  }

  /** `log.status` as the export writes it: the status's own name. */
  function LogStatusText(s: LogStatus): (t: string)
    ensures t != "" && Csv.Clean(t)
  {
    match s
    case LogSuccess => "success"
    case LogError => "error"
    case LogWarning => "warning"
    case LogInfo => "info"
  }

  /** The status column tells the four log statuses apart. */
  lemma LogStatusTextInjective(a: LogStatus, b: LogStatus)
    ensures LogStatusText(a) == LogStatusText(b) ==> a == b
  {
  }

  const LogsHeader: seq<string> := ["Acción", "Usuario", "Fecha y Hora", "IP", "Estado"]

  /** One line of `exportLogs`: action, user, timestamp, address, status. */
  function LogRow(l: SystemLog): (row: seq<string>)
    ensures |row| == |LogsHeader|
    ensures row[0] == l.action && row[1] == l.user && row[2] == l.timestamp && row[3] == l.ip
    ensures row[4] == LogStatusText(l.status)
  {
    [l.action, l.user, l.timestamp, l.ip, LogStatusText(l.status)]
  }

  function LogRows(logs: seq<SystemLog>): (rows: seq<seq<string>>)
    ensures |rows| == |logs|
    ensures forall k :: 0 <= k < |logs| ==> rows[k] == LogRow(logs[k])
  {
    seq(|logs|, k requires 0 <= k < |logs| => LogRow(logs[k]))
  }

  /** `exportLogs`: the fixed header line, then one line per log entry,
      newest first. Whatever the entries hold, the file opens with that
      header line. */
  function ExportLogs(logs: seq<SystemLog>): (e: string)
    ensures var ls := Text.Split(e, '\n');
      |ls| >= 2 && ls[0] == Csv.Line(LogsHeader) && Text.Split(ls[0], ',') == LogsHeader
  {
    assert forall k :: 0 <= k < |LogsHeader| ==> Csv.Clean(LogsHeader[k]);
    Csv.DocumentFirstLine(LogsHeader, LogRows(logs));
    Csv.Document(LogsHeader, LogRows(logs))
  }

  /** The log export reads back as its header and one five-field row per
      entry, in order, when no action, user, timestamp or address holds a
      comma or newline. */
  lemma ExportLogsReadBack(logs: seq<SystemLog>)
    requires forall k :: 0 <= k < |logs| ==>
      Csv.Clean(logs[k].action) && Csv.Clean(logs[k].user) && Csv.Clean(logs[k].timestamp) && Csv.Clean(logs[k].ip)
    ensures var ls := Text.Split(ExportLogs(logs), '\n');
      && |ls| == 1 + (if |logs| == 0 then 1 else |logs|)
      && Text.Split(ls[0], ',') == LogsHeader
      && forall k :: 0 <= k < |logs| ==> Text.Split(ls[k + 1], ',') == LogRow(logs[k])
  {
    var rows := LogRows(logs);
    forall k | 0 <= k < |rows| ensures forall j :: 0 <= j < |rows[k]| ==> Csv.Clean(rows[k][j]) {
      var st := LogStatusText(logs[k].status);
      assert Csv.Clean(st);
    }
    assert forall k :: 0 <= k < |LogsHeader| ==> Csv.Clean(LogsHeader[k]);
    Csv.DocumentReadBack(LogsHeader, rows);
  }
}
