/** The communication centre: chats with their last message, the open
    conversation's messages, forums and a notification list, with the
    badges on the tabs. */
module Communication {
  import Store
  import Text

  datatype ChatKind = StudentChat | GroupChat | TeacherChat
  datatype Chat = Chat(id: string, name: string, kind: ChatKind, lastMessage: string,
                       time: string, unread: nat, online: bool)

  datatype MessageKind = TextMessage | FileMessage | ImageMessage
  datatype Message = Message(id: string, sender: string, content: string, time: string,
                             isOwn: bool, kind: MessageKind)

  datatype Forum = Forum(id: string, title: string, subject: string, posts: nat,
                         lastActivity: string, participants: nat, isActive: bool)

  datatype Level = Success | Info | Warning | Error
  datatype Notification = Notification(id: string, title: string, message: string,
                                       time: string, level: Level, read: bool)

  /** The component's state: the lists, the selected chat, the message
      being typed and the new-forum form. */
  datatype Desk = Desk(
    chats: seq<Chat>, messages: seq<Message>, forums: seq<Forum>, notifications: seq<Notification>,
    selectedChat: string, draft: string, showNewForum: bool, forumTitle: string, forumSubject: string)

  const Me: string := "Yo"
  const Now: string := "Ahora"

  /** `sendMessage`: a draft that trims to nothing sends nothing. Otherwise
      the message is appended as the user's own text, the draft is cleared,
      and the selected chat (only it) takes the draft as its last message
      and the send time as its time. */
  function SendMessage(d: Desk, freshId: string, now: string): (r: Desk)
    ensures Text.IsBlank(d.draft) ==> r == d
    ensures !Text.IsBlank(d.draft) ==>
      && r == d.(messages := r.messages, chats := r.chats, draft := "")
      && r.messages == d.messages + [Message(freshId, Me, d.draft, now, true, TextMessage)]
      && |r.chats| == |d.chats|
      && forall i :: 0 <= i < |d.chats| ==>
           r.chats[i] == (if d.chats[i].id == d.selectedChat
                          then d.chats[i].(lastMessage := d.draft, time := now)
                          else d.chats[i])
  {
    Text.TrimEmptyIffBlank(d.draft);
    if Text.Trim(d.draft) == "" then d
    else
      var m := Message(freshId, Me, d.draft, now, true, TextMessage);
      d.(messages := d.messages + [m], draft := "",
         chats := Store.MapWhere(d.chats, (c: Chat) => c.id == d.selectedChat,
                                 (c: Chat) => c.(lastMessage := d.draft, time := now)))
  }

  /** A desk changes exactly when its draft holds something besides spaces. */
  lemma SendChangesIffNotBlank(d: Desk, freshId: string, now: string)
    ensures SendMessage(d, freshId, now) == d <==> Text.IsBlank(d.draft)
  {
    if !Text.IsBlank(d.draft) {
      assert |SendMessage(d, freshId, now).messages| == |d.messages| + 1;
    }
  }

  /** The messages tab's badge: the sum of the chats' unread counts. It is
      at least any one chat's count, and 0 exactly when every chat is read. */
  function ChatBadge(chats: seq<Chat>): (b: int)
    ensures b >= 0
    ensures forall i :: 0 <= i < |chats| ==> chats[i].unread <= b
    ensures b == 0 <==> forall i :: 0 <= i < |chats| ==> chats[i].unread == 0
  {
    Store.SumIntBounds(chats, (c: Chat) => c.unread);
    Store.SumInt(chats, (c: Chat) => c.unread)
  }

  /** Sending a message leaves the unread badge as it was. */
  lemma SendKeepsChatBadge(d: Desk, freshId: string, now: string)
    ensures ChatBadge(SendMessage(d, freshId, now).chats) == ChatBadge(d.chats)
  {
    if !Text.IsBlank(d.draft) {
      Store.SumIntMapWhereUnchanged(d.chats, (c: Chat) => c.id == d.selectedChat,
        (c: Chat) => c.(lastMessage := d.draft, time := now), (c: Chat) => c.unread);
      assert SendMessage(d, freshId, now).chats
          == Store.MapWhere(d.chats, (c: Chat) => c.id == d.selectedChat,
                            (c: Chat) => c.(lastMessage := d.draft, time := now));
    }
  }

  /** `markNotificationAsRead`: the notifications with this id become read. */
  function MarkNotificationAsRead(ns: seq<Notification>, id: string): (r: seq<Notification>)
    ensures |r| == |ns|
    ensures forall i :: 0 <= i < |ns| ==>
      r[i] == (if ns[i].id == id then ns[i].(read := true) else ns[i])
  {
    Store.MapWhere(ns, (n: Notification) => n.id == id, (n: Notification) => n.(read := true))
  }

  predicate IsUnread(n: Notification) {
    !n.read
  }

  /** The notifications tab's badge: how many are unread. */
  function NotificationBadge(ns: seq<Notification>): (c: nat)
    ensures c <= |ns|
    ensures c == 0 <==> forall i :: 0 <= i < |ns| ==> ns[i].read
  {
    Store.Count(ns, IsUnread)
  }

  /** Marking a notification read lowers the badge by the number of unread
      notifications carrying the id, and by nothing else. */
  lemma {:induction false} MarkReadLowersBadge(ns: seq<Notification>, id: string)
    ensures NotificationBadge(MarkNotificationAsRead(ns, id))
         == NotificationBadge(ns) - Store.Count(ns, (n: Notification) => n.id == id && !n.read)
    decreases |ns|
  {
    if |ns| > 0 {
      MarkReadLowersBadge(ns[1..], id);
      assert MarkNotificationAsRead(ns, id)[1..] == MarkNotificationAsRead(ns[1..], id);
    }
  }

  /** Marking read a second time does nothing more. */
  lemma MarkReadIdempotent(ns: seq<Notification>, id: string)
    ensures MarkNotificationAsRead(MarkNotificationAsRead(ns, id), id) == MarkNotificationAsRead(ns, id)
  {
  }

  /** `createNewForum`: a forum with no posts, one participant, active and
      last active "Ahora" is appended, and the form closes. */
  function CreateNewForum(d: Desk, title: string, subject: string, freshId: string): (r: Desk)
    ensures r == d.(forums := r.forums, showNewForum := false)
    ensures r.forums == d.forums + [Forum(freshId, title, subject, 0, Now, 1, true)]
  {
    d.(forums := d.forums + [Forum(freshId, title, subject, 0, Now, 1, true)], showNewForum := false)
  }

  /** The "Crear" button: only when both the title and the subject are
      filled does it create the forum and clear both fields. */
  function CreateClick(d: Desk, freshId: string): (r: Desk)
    ensures d.forumTitle == "" || d.forumSubject == "" ==> r == d
    ensures d.forumTitle != "" && d.forumSubject != "" ==>
      && r == d.(forums := r.forums, showNewForum := false, forumTitle := "", forumSubject := "")
      && |r.forums| == |d.forums| + 1 && r.forums[..|d.forums|] == d.forums
      && r.forums[|d.forums|].title == d.forumTitle && r.forums[|d.forums|].subject == d.forumSubject
  {
    if d.forumTitle != "" && d.forumSubject != "" then
      var r := CreateNewForum(d, d.forumTitle, d.forumSubject, freshId);
      assert r.forums[..|d.forums|] == d.forums;
      r.(forumTitle := "", forumSubject := "")
    else d
  }

  /** A forum is created exactly when both fields are filled, and the form
      is then empty, so a second click creates nothing. */
  lemma CreateClickTwice(d: Desk, freshId: string, otherId: string)
    ensures |CreateClick(d, freshId).forums| == |d.forums| + (if d.forumTitle != "" && d.forumSubject != "" then 1 else 0)
    ensures CreateClick(CreateClick(d, freshId), otherId) == CreateClick(d, freshId)
  {
  }

  /** Forum ids stay unique when the new id is fresh. */
  lemma CreateKeepsForumIdsUnique(d: Desk, freshId: string)
    requires Store.UniqueIds(d.forums, (f: Forum) => f.id)
    requires Store.FreshId(d.forums, (f: Forum) => f.id, freshId)
    ensures Store.UniqueIds(CreateClick(d, freshId).forums, (f: Forum) => f.id)
  {
    if d.forumTitle != "" && d.forumSubject != "" {
      Store.AppendFreshKeepsUnique(d.forums, Forum(freshId, d.forumTitle, d.forumSubject, 0, Now, 1, true),
                                   (f: Forum) => f.id);
    }
  }
}
