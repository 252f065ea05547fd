/** The notification centre: a list of notifications with a read flag, the
    handlers that mark, delete and clear them, the filter tabs, the unread
    count and the relative-time label. */
module Notifications {
  import opened Wrappers
  import Store
  import Text

  datatype Kind = Success | Info | Warning | Error

  /** A notification; `action` is the label of its optional action button. */
  datatype Notification = Notification(
    id: string, title: string, message: string, kind: Kind,
    timestamp: string, read: bool, action: Option<string>)

  /** The filter tabs: all, unread only, or one kind. */
  datatype Filter = All | Unread | OfKind(kind: Kind)

  predicate IsUnread(n: Notification) { !n.read }

  /** `markAsRead`: the notifications with this id become read; nothing else changes. */
  function MarkAsRead(ns: seq<Notification>, id: string): (r: seq<Notification>)
    ensures |r| == |ns|
    ensures forall i :: 0 <= i < |ns| ==>
      r[i] == (if ns[i].id == id then ns[i].(read := true) else ns[i])
  {
    Store.MapWhere(ns, (n: Notification) => n.id == id, (n: Notification) => n.(read := true))
  }

  /** `markAsUnread`: the notifications with this id become unread; nothing else changes. */
  function MarkAsUnread(ns: seq<Notification>, id: string): (r: seq<Notification>)
    ensures |r| == |ns|
    ensures forall i :: 0 <= i < |ns| ==>
      r[i] == (if ns[i].id == id then ns[i].(read := false) else ns[i])
  {
    Store.MapWhere(ns, (n: Notification) => n.id == id, (n: Notification) => n.(read := false))
  }

  /** `deleteNotification`: exactly the notifications with this id go, the
      rest stay in their order. */
  function Delete(ns: seq<Notification>, id: string): (r: seq<Notification>)
    ensures forall i :: 0 <= i < |r| ==> r[i].id != id && r[i] in ns
    ensures forall i :: 0 <= i < |ns| && ns[i].id != id ==> ns[i] in r
    ensures |r| == |ns| - Store.Count(ns, (n: Notification) => n.id == id)
    ensures Store.IsSubseq(r, ns)
  {
    Store.CountComplement(ns, (n: Notification) => n.id != id, (n: Notification) => n.id == id);
    Store.Filter(ns, (n: Notification) => n.id != id)
  }

  /** `markAllAsRead`: every notification becomes read, in place. */
  function MarkAllAsRead(ns: seq<Notification>): (r: seq<Notification>)
    ensures |r| == |ns|
    ensures forall i :: 0 <= i < |ns| ==> r[i] == ns[i].(read := true)
    ensures UnreadCount(r) == 0
  {
    Store.MapWhere(ns, _ => true, (n: Notification) => n.(read := true))
  }

  /** `clearAll`: no notification is left, so none is unread and every tab is empty. */
  function ClearAll(ns: seq<Notification>): (r: seq<Notification>)
    ensures |r| == 0
    ensures UnreadCount(r) == 0
    ensures forall f :: Filtered(r, f) == []
  {
    []
  }

  /** Whether a notification shows under a tab. */
  predicate Shows(f: Filter, n: Notification) {
    match f
    case All => true
    case Unread => !n.read
    case OfKind(k) => n.kind == k
  }

  /** `filteredNotifications`: the notifications the tab shows, in order. */
  function Filtered(ns: seq<Notification>, f: Filter): (r: seq<Notification>)
    ensures Store.IsSubseq(r, ns)
    ensures f == All ==> r == ns
    ensures forall i :: 0 <= i < |r| ==> r[i] in ns && Shows(f, r[i])
    ensures forall i :: 0 <= i < |ns| && Shows(f, ns[i]) ==> ns[i] in r
    ensures |r| == Store.Count(ns, (n: Notification) => Shows(f, n))
  {
    var r := Store.Filter(ns, (n: Notification) => Shows(f, n));
    if f == All then
      FilterAllIsIdentity(ns, (n: Notification) => Shows(f, n));
      r
    else r
  }

  lemma {:induction false} FilterAllIsIdentity(ns: seq<Notification>, keep: Notification -> bool)
    requires forall i :: 0 <= i < |ns| ==> keep(ns[i])
    ensures Store.Filter(ns, keep) == ns
    decreases |ns|
  {
    if |ns| > 0 {
      FilterAllIsIdentity(ns[1..], keep);
      assert [ns[0]] + ns[1..] == ns;
    }
  }

  /** `unreadCount`. */
  function UnreadCount(ns: seq<Notification>): (c: nat)
    ensures c <= |ns|
    ensures c == 0 <==> forall i :: 0 <= i < |ns| ==> ns[i].read
  {
    Store.Count(ns, IsUnread)
  }

  /** The unread tab shows exactly as many notifications as the badge counts. */
  lemma UnreadTabMatchesCount(ns: seq<Notification>)
    ensures |Filtered(ns, Unread)| == UnreadCount(ns)
  {
    var keep := (n: Notification) => Shows(Unread, n);
    Store.CountMonotone(ns, keep, IsUnread);
    Store.CountMonotone(ns, IsUnread, keep);
  }

  /** Marking as unread undoes marking as read when the targeted
      notifications were unread. */
  lemma UnreadUndoesRead(ns: seq<Notification>, id: string)
    requires forall i :: 0 <= i < |ns| && ns[i].id == id ==> !ns[i].read
    ensures MarkAsUnread(MarkAsRead(ns, id), id) == ns
  {
    var r := MarkAsUnread(MarkAsRead(ns, id), id);
    assert forall i :: 0 <= i < |ns| ==> r[i] == ns[i];
  }

  /** Marking as read twice is marking once. */
  lemma MarkAsReadIdempotent(ns: seq<Notification>, id: string)
    ensures MarkAsRead(MarkAsRead(ns, id), id) == MarkAsRead(ns, id)
  {
  }

  /** Marking as read lowers the unread count by the number of unread
      notifications that carry the id, and by nothing else. */
  lemma {:induction false} MarkAsReadUnreadCount(ns: seq<Notification>, id: string)
    ensures UnreadCount(MarkAsRead(ns, id))
         == UnreadCount(ns) - Store.Count(ns, (n: Notification) => n.id == id && !n.read)
    decreases |ns|
  {
    if |ns| > 0 {
      MarkAsReadUnreadCount(ns[1..], id);
      assert MarkAsRead(ns, id)[1..] == MarkAsRead(ns[1..], id);
    }
  }

  /** Deleting keeps identifiers unique. */
  lemma DeleteKeepsUnique(ns: seq<Notification>, id: string)
    requires Store.UniqueIds(ns, (n: Notification) => n.id)
    ensures Store.UniqueIds(Delete(ns, id), (n: Notification) => n.id)
  {
    Store.FilterKeepsUnique(ns, (n: Notification) => n.id != id, (n: Notification) => n.id);
  }

  // ---------------------------------------------------------------------
  // Relative time

  const MinuteMs: int := 60000
  const HourMs: int := 3600000
  const DayMs: int := 86400000

  /** The label's bucket: now, or a count of whole days, hours or minutes. */
  datatype Ago = Now | Days(n: nat) | Hours(n: nat) | Minutes(n: nat)

  /** `Math.floor(x / d)` for positive `d`: Dafny's division already rounds down. */
  function FloorDiv(x: int, d: int): int
    requires d > 0
  {
    x / d
  }

  /** The bucketing of `formatTime` on a millisecond difference: minutes,
      hours and days floored in turn, the largest non-zero unit wins, and a
      difference under one minute (negative ones included) is "now". */
  function Bucket(diff: int): (a: Ago)
    ensures a == Now <==> diff < MinuteMs
    ensures a.Days? ==> a.n >= 1 && a.n * DayMs <= diff < (a.n + 1) * DayMs
    ensures a.Hours? ==> DayMs > diff && a.n >= 1 && a.n * HourMs <= diff < (a.n + 1) * HourMs
    ensures a.Minutes? ==> HourMs > diff && a.n >= 1 && a.n * MinuteMs <= diff < (a.n + 1) * MinuteMs
  {
    var minutes := FloorDiv(diff, 60000);
    var hours := FloorDiv(minutes, 60);
    var days := FloorDiv(hours, 24);
    NestedFloor(diff);
    if days > 0 then Days(days)
    else if hours > 0 then Hours(hours)
    else if minutes > 0 then Minutes(minutes)
    else Now
  }

  /** Flooring to minutes, then hours, then days equals flooring straight
      to hours or days. */
  lemma NestedFloor(diff: int)
    ensures (diff / 60000) / 60 == diff / HourMs
    ensures ((diff / 60000) / 60) / 24 == diff / DayMs
  {
    var m := diff / 60000;
    var h := m / 60;
    var d := h / 24;
    assert diff == 60000 * m + diff % 60000;
    assert m == 60 * h + m % 60;
    assert h == 24 * d + h % 24;
    assert diff == HourMs * h + (60000 * (m % 60) + diff % 60000);
    assert 0 <= 60000 * (m % 60) + diff % 60000 < HourMs;
    assert diff == DayMs * d + (HourMs * (h % 24) + 60000 * (m % 60) + diff % 60000);
  }

  /** "hace N unit", with the plural "s" exactly when N > 1. */
  function Phrase(n: nat, unit: string): string {
    "hace " + Text.NatToString(n) + " " + unit + (if n > 1 then "s" else "")
  }

  function Render(a: Ago): string {
    match a
    case Now => "ahora"
    case Days(n) => Phrase(n, "día")
    case Hours(n) => Phrase(n, "hora")
    case Minutes(n) => Phrase(n, "minuto")
  }

  /** `formatTime` on the difference between now and the timestamp. */
  function FormatTime(diff: int): (s: string)
    ensures s == "ahora" <==> diff < MinuteMs
    ensures diff >= DayMs ==> s == Phrase(diff / DayMs, "día")
    ensures HourMs <= diff < DayMs ==> s == Phrase(diff / HourMs, "hora")
    ensures MinuteMs <= diff < HourMs ==> s == Phrase(diff / MinuteMs, "minuto")
  {
    var a := Bucket(diff);
    NestedFloor(diff);
    assert a != Now ==> Render(a)[..4] == "hace";
    Render(a)
  }

  /** The phrase ends in "s" exactly when the count is above one. */
  lemma PluralIffMany(n: nat, unit: string)
    requires |unit| > 0 && unit[|unit| - 1] != 's'
    ensures var p := Phrase(n, unit); p[|p| - 1] == 's' <==> n > 1
  {
  }
}
