/**
 What each request does to the tables, row by row: which seats, chats and messages there are after it,
 and what becomes of a message over a whole run.
 */
module ChatEffects {
  import opened Options
  import opened ChatTables
  import opened ChatInvariants

  // ----- messages -----

  /** An accepted message is one new row with its chat, its sender and the time; a refused one is none. */
  lemma SendExactly(db: Db, chat: int, sender: int)
    ensures var d := Apply(db, SendRequest(chat, sender));
            if chat in db.chats && sender in db.users then
              d == db.(messages := db.messages[db.nextMessage := Message(chat, sender, db.now, false)],
                       chats := db.chats[chat := Chat(db.chats[chat].isGroup, Some(db.nextMessage))],
                       nextMessage := db.nextMessage + 1)
            else d == db
  {
  }

  /** The chat a request writes to. */
  function ChatOf(db: Db, r: Request): Option<int> {
    match r
    case CreateRequest(_, _, _) => Some(db.nextChat)
    case AddRequest(chat, _, _) => Some(chat)
    case SendRequest(chat, _) => Some(chat)
    case RemoveRequest(chat, _, _) => Some(chat)
    case ExitRequest(chat, _, _) => Some(chat)
    case _ => None
  }

  /** Only a message that was sent has its sender's id; all others are the system's, user 1. */
  ghost predicate Written(db: Db, r: Request, m: Message) {
    Some(m.chat) == ChatOf(db, r) && m.createdAt == db.now && !m.isDeleted
    && m.sender == if r.SendRequest? then r.sender else 1
  }

  /** From `db` to `d` messages were only added, under new ids, by the system to one chat. */
  ghost predicate Logs(db: Db, d: Db, chat: int) {
    && d.now == db.now && db.nextMessage <= d.nextMessage
    && (forall m :: m in db.messages ==> m in d.messages && d.messages[m] == db.messages[m])
    && (forall m :: m in d.messages && m !in db.messages ==>
          db.nextMessage <= m && d.messages[m] == Message(chat, 1, db.now, false))
  }

  lemma PostLogs(db: Db, d: Db, chat: int)
    requires Sound(db) && d.messages == db.messages && d.nextMessage == db.nextMessage && d.now == db.now
    ensures Logs(db, Post(d, chat, SYSTEM_USER), chat)
  {
  }

  lemma LogsOn(a: Db, b: Db, c: Db, chat: int)
    requires Logs(a, b, chat) && Logs(b, c, chat)
    ensures Logs(a, c, chat)
  {
  }

  lemma {:induction false} JoinAllLogs(db: Db, chat: int, users: seq<int>, creator: Option<int>)
    requires Sound(db)
    ensures Logs(db, JoinAll(db, chat, users, creator), chat)
    decreases |users|
  {
    hide Sound, Post, Logs;
    if users == [] {
      NothingLogged(db, chat);
    } else {
      var one := JoinOne(db, chat, users[0], creator);
      JoinOneKeeps(db, chat, users[0], creator);
      JoinOneLogs(db, chat, users[0], creator);
      JoinAllLogs(one, chat, users[1..], creator);
      LogsOn(db, one, JoinAll(one, chat, users[1..], creator), chat);
    }
  }

  lemma NothingLogged(db: Db, chat: int)
    ensures Logs(db, db, chat)
  {
  }

  lemma JoinOneLogs(db: Db, chat: int, user: int, creator: Option<int>)
    requires Sound(db)
    ensures Logs(db, JoinOne(db, chat, user, creator), chat)
  {
    hide Sound, Post, Logs;
    NothingLogged(db, chat);
    PostLogs(db, AddMember(db, chat, user, creator == Some(user)), chat);
  }

  lemma {:induction false} LeaveAllLogs(db: Db, chat: int, remover: int, ids: seq<int>)
    requires Sound(db)
    ensures Logs(db, LeaveAll(db, chat, remover, ids), chat)
    decreases |ids|
  {
    hide Sound, Post, Logs;
    NothingLogged(db, chat);
    if ids != [] {
      var one := LeaveOne(db, chat, remover, ids[0]);
      LeaveOneKeeps(db, chat, remover, ids[0]);
      PostLogs(db, DeleteMember(db, chat, ids[0]), chat);
      LeaveAllLogs(one, chat, remover, ids[1..]);
      LogsOn(db, one, LeaveAll(one, chat, remover, ids[1..]), chat);
    }
  }

  /** What a request does to the messages: old rows stay as long as their chat, new ones are `Written`. */
  ghost predicate KeepsLog(db: Db, r: Request, d: Db) {
    && db.nextMessage <= d.nextMessage
    && (forall m :: m in db.messages ==> (m in d.messages <==> db.messages[m].chat in d.chats))
    && (forall m :: m in db.messages && m in d.messages ==> d.messages[m] == db.messages[m])
    && (forall m :: m in d.messages && m !in db.messages ==> db.nextMessage <= m && Written(db, r, d.messages[m]))
  }

  lemma LogsKeepsLog(db: Db, r: Request, d: Db, chat: int)
    requires Sound(db) && Logs(db, d, chat) && !r.SendRequest? && ChatOf(db, r) == Some(chat)
    requires forall c :: c in db.chats ==> c in d.chats
    ensures KeepsLog(db, r, d)
  {
  }

  lemma RequestKeepsLog(db: Db, r: Request)
    requires Sound(db)
    ensures KeepsLog(db, r, Apply(db, r))
  {
    hide Sound, Post, JoinAll, LeaveAll, Logs, KeepsLog, InsertChat;
    match r
    case CreateRequest(isGroup, createdBy, ids) => CreateKeepsLog(db, isGroup, createdBy, ids);
    case AddRequest(chat, addedBy, ids) =>
      JoinAllLogs(db, chat, ids, None);
      JoinAllKeeps(db, chat, ids, None);
      NothingLogged(db, chat);
      LogsKeepsLog(db, r, Apply(db, r), chat);
    case SendRequest(chat, sender) => SendKeepsLog(db, chat, sender);
    case RemoveRequest(chat, remover, ids) =>
      LeaveAllLogs(db, chat, remover, ids);
      LeaveAllKeeps(db, chat, remover, ids);
      NothingLogged(db, chat);
      LogsKeepsLog(db, r, Apply(db, r), chat);
    case ExitRequest(chat, user, heir) => ExitKeepsLog(db, chat, user, heir);
    case Register(user) => SameLog(db, r);
    case Wait(until) => SameLog(db, r);
  }

  lemma SendKeepsLog(db: Db, chat: int, sender: int)
    requires Sound(db)
    ensures KeepsLog(db, SendRequest(chat, sender), Post(db, chat, sender))
  {
  }

  lemma SameLog(db: Db, r: Request)
    requires Sound(db) && (r.Register? || r.Wait?)
    ensures KeepsLog(db, r, Apply(db, r))
  {
  }

  lemma CreateKeepsLog(db: Db, isGroup: bool, createdBy: int, ids: seq<int>)
    requires Sound(db)
    ensures KeepsLog(db, CreateRequest(isGroup, createdBy, ids), Create(db, isGroup, createdBy, ids))
  {
    hide Sound, Post, JoinAll, Logs, KeepsLog;
    var r := CreateRequest(isGroup, createdBy, ids);
    NothingLogged(db, db.nextChat);
    if AcceptsCreate(isGroup, createdBy, ids) {
      var posted := Post(InsertChat(db, isGroup), db.nextChat, SYSTEM_USER);
      var d := JoinAll(posted, db.nextChat, [createdBy] + ids, Some(createdBy));
      InsertChatKeeps(db, isGroup);
      PostKeeps(InsertChat(db, isGroup), db.nextChat, SYSTEM_USER);
      PostLogs(db, InsertChat(db, isGroup), db.nextChat);
      JoinAllLogs(posted, db.nextChat, [createdBy] + ids, Some(createdBy));
      JoinAllKeeps(posted, db.nextChat, [createdBy] + ids, Some(createdBy));
      LogsOn(db, posted, d, db.nextChat);
    }
    LogsKeepsLog(db, r, Create(db, isGroup, createdBy, ids), db.nextChat);
  }

  lemma ExitKeepsLog(db: Db, chat: int, user: int, heir: int)
    requires Sound(db)
    ensures KeepsLog(db, ExitRequest(chat, user, heir), Exit(db, chat, user, heir))
  {
    hide Sound, Post, Logs, KeepsLog;
    var left := Left(db, chat, user);
    PostLogs(db, DeleteMember(db, chat, user), chat);
    LeftKeeps(db, chat, user);
    LogsKeepsLog(db, ExitRequest(chat, user, heir), left, chat);
    SameMessages(db, ExitRequest(chat, user, heir), left, Promote(left, chat, heir));
    DeletedLog(db, ExitRequest(chat, user, heir), left, chat);
  }

  lemma SameMessages(db: Db, r: Request, a: Db, b: Db)
    requires KeepsLog(db, r, a) && b.messages == a.messages && b.nextMessage == a.nextMessage && b.chats == a.chats
    ensures KeepsLog(db, r, b)
  {
  }

  lemma DeletedLog(db: Db, r: Request, a: Db, chat: int)
    requires KeepsLog(db, r, a)
    ensures KeepsLog(db, r, DeleteChat(a, chat))
  {
  }

  // ----- messages over a whole run -----

  /** Ids of chats are not handed out again. */
  lemma ChatsGrowOnly(db: Db, r: Request, chat: int)
    requires Sound(db)
    ensures db.nextChat <= Apply(db, r).nextChat
    ensures chat < db.nextChat && chat !in db.chats ==> chat !in Apply(db, r).chats
  {
    hide Sound, Post, JoinAll, LeaveAll, InsertChat, DeleteChat, Promote;
    match r
    case CreateRequest(isGroup, createdBy, ids) =>
      if AcceptsCreate(isGroup, createdBy, ids) {
        InsertChatKeeps(db, isGroup);
        InsertedChat(db, isGroup);
        PostKeeps(InsertChat(db, isGroup), db.nextChat, SYSTEM_USER);
        var posted := Post(InsertChat(db, isGroup), db.nextChat, SYSTEM_USER);
        JoinAllKeeps(posted, db.nextChat, [createdBy] + ids, Some(createdBy));
      }
    case AddRequest(to, addedBy, ids) => JoinAllKeeps(db, to, ids, None);
    case SendRequest(to, sender) => PostKeeps(db, to, sender);
    case RemoveRequest(to, remover, ids) =>
      LeaveAllKeeps(db, to, remover, ids);
      LeaveAllNext(db, to, remover, ids);
    case ExitRequest(to, user, heir) => ExitNext(db, to, user, heir);
    case Register(user) =>
    case Wait(until) =>
  }

  lemma InsertedChat(db: Db, isGroup: bool)
    ensures InsertChat(db, isGroup).chats.Keys == db.chats.Keys + {db.nextChat}
    ensures InsertChat(db, isGroup).nextChat == db.nextChat + 1
  {
  }

  lemma {:induction false} LeaveAllNext(db: Db, chat: int, remover: int, ids: seq<int>)
    ensures LeaveAll(db, chat, remover, ids).nextChat == db.nextChat
    decreases |ids|
  {
    if ids != [] { LeaveAllNext(LeaveOne(db, chat, remover, ids[0]), chat, remover, ids[1..]); }
  }

  lemma ExitNext(db: Db, chat: int, user: int, heir: int)
    ensures Exit(db, chat, user, heir).nextChat == db.nextChat
    ensures forall c :: c in Exit(db, chat, user, heir).chats ==> c in db.chats
  {
  }

  /** In every serial run a message stays, unchanged, exactly as long as its chat does. */
  lemma {:induction false} MessagesStay(db: Db, rs: seq<Request>, m: int)
    requires Sound(db) && Serial(db, rs) && m in db.messages
    ensures var d := ApplyAll(db, rs);
            && (m in d.messages <==> db.messages[m].chat in d.chats)
            && (m in d.messages ==> d.messages[m] == db.messages[m])
    decreases |rs|
  {
    hide Sound, Apply, KeepsLog;
    if rs == [] {
      ChatThere(db, m);
    } else {
      var d := Apply(db, rs[0]);
      ApplyKeepsSound(db, rs[0]);
      RequestKeepsLog(db, rs[0]);
      RowKept(db, rs[0], d, m);
      if m in d.messages {
        MessagesStay(d, rs[1..], m);
      } else {
        ChatThere(db, m);
        ChatsGrowOnly(db, rs[0], db.messages[m].chat);
        StaysGone(d, rs[1..], db.messages[m].chat, m);
      }
    }
  }

  lemma ChatThere(db: Db, m: int)
    requires Sound(db) && m in db.messages
    ensures db.messages[m].chat in db.chats && db.messages[m].chat < db.nextChat && m < db.nextMessage
  {
  }

  lemma RowKept(db: Db, r: Request, d: Db, m: int)
    requires KeepsLog(db, r, d) && m in db.messages
    ensures db.nextMessage <= d.nextMessage
    ensures m in d.messages <==> db.messages[m].chat in d.chats
    ensures m in d.messages ==> d.messages[m] == db.messages[m]
  {
  }

  lemma {:induction false} StaysGone(db: Db, rs: seq<Request>, chat: int, m: int)
    requires Sound(db) && Serial(db, rs) && chat < db.nextChat && chat !in db.chats
    requires m < db.nextMessage && m !in db.messages
    ensures chat !in ApplyAll(db, rs).chats && m !in ApplyAll(db, rs).messages
    decreases |rs|
  {
    hide Sound, Apply, KeepsLog;
    if rs != [] {
      ApplyKeepsSound(db, rs[0]);
      RequestKeepsLog(db, rs[0]);
      ChatsGrowOnly(db, rs[0], chat);
      NoOldRow(db, rs[0], Apply(db, rs[0]), m);
      StaysGone(Apply(db, rs[0]), rs[1..], chat, m);
    }
  }

  lemma NoOldRow(db: Db, r: Request, d: Db, m: int)
    requires KeepsLog(db, r, d) && m < db.nextMessage && m !in db.messages
    ensures m !in d.messages && m < d.nextMessage
  {
  }

  /** Whose message a row is: the system's, or that of somebody who sent one to its chat in the run. */
  ghost predicate WasSent(rs: seq<Request>, m: Message) {
    m.sender == 1 || exists i :: 0 <= i < |rs| && rs[i] == SendRequest(m.chat, m.sender)
  }

  /** In every serial run every message was sent by its sender, or is the system's. */
  lemma MessagesWereSent(users: set<int>, now: int, rs: seq<Request>, m: int)
    requires Serial(EmptyDb(users, now), rs) && m in ApplyAll(EmptyDb(users, now), rs).messages
    ensures WasSent(rs, ApplyAll(EmptyDb(users, now), rs).messages[m])
  {
    assert Sound(EmptyDb(users, now));
    NewMessagesWereSent(EmptyDb(users, now), rs, m);
  }

  lemma {:induction false} NewMessagesWereSent(db: Db, rs: seq<Request>, m: int)
    requires Sound(db) && Serial(db, rs) && m in ApplyAll(db, rs).messages && m !in db.messages
    ensures WasSent(rs, ApplyAll(db, rs).messages[m])
    decreases |rs|
  {
    hide Sound, Apply, KeepsLog;
    if rs != [] {
      var d := Apply(db, rs[0]);
      ApplyKeepsSound(db, rs[0]);
      RequestKeepsLog(db, rs[0]);
      if m in d.messages {
        MessagesStay(d, rs[1..], m);
        NewRow(db, rs[0], d, m);
      } else {
        NewMessagesWereSent(d, rs[1..], m);
        var last := ApplyAll(db, rs).messages[m];
        if i :| 0 <= i < |rs[1..]| && rs[1..][i] == SendRequest(last.chat, last.sender) {
          assert rs[i + 1] == SendRequest(last.chat, last.sender);
        }
      }
    }
  }

  lemma NewRow(db: Db, r: Request, d: Db, m: int)
    requires KeepsLog(db, r, d) && m in d.messages && m !in db.messages
    ensures d.messages[m].sender == 1 || r == SendRequest(d.messages[m].chat, d.messages[m].sender)
  {
  }

  /** Every accepted message of a run is there at its end, as it was sent, if its chat is. */
  lemma SentMessagesStay(users: set<int>, now: int, before: seq<Request>, chat: int, sender: int, after: seq<Request>)
    requires Serial(EmptyDb(users, now), before)
    requires var db := ApplyAll(EmptyDb(users, now), before);
             chat in db.chats && sender in db.users && Serial(Apply(db, SendRequest(chat, sender)), after)
    ensures var db := ApplyAll(EmptyDb(users, now), before);
            var d := ApplyAll(Apply(db, SendRequest(chat, sender)), after);
            chat in d.chats ==>
              db.nextMessage in d.messages && d.messages[db.nextMessage] == Message(chat, sender, db.now, false)
  {
    hide Sound;
    var db := ApplyAll(EmptyDb(users, now), before);
    EmptyIsSound(users, now);
    ApplyAllKeepsSound(EmptyDb(users, now), before);
    ApplyKeepsSound(db, SendRequest(chat, sender));
    SendExactly(db, chat, sender);
    MessagesStay(Apply(db, SendRequest(chat, sender)), after, db.nextMessage);
  }

  lemma EmptyIsSound(users: set<int>, now: int)
    ensures Sound(EmptyDb(users, now))
  {
  }

  // ----- seats and chats -----

  /** Groups of at most ten with their creator, chats of two, and nothing else, are created as asked for. */
  lemma CreateExactly(db: Db, isGroup: bool, createdBy: int, ids: seq<int>)
    requires Sound(db)
    ensures var d := Apply(db, CreateRequest(isGroup, createdBy, ids));
            var chat := db.nextChat;
            if createdBy != 0 && (if isGroup then 1 <= |ids| <= 8 else |ids| == 1) then
              && d.nextChat == chat + 1 && d.chats.Keys == db.chats.Keys + {chat} && d.chats[chat].isGroup == isGroup
              && (forall s :: s in d.participants <==>
                    s in db.participants
                    || (s.chat == chat && (s.user == createdBy || s.user in ids) && s.user in db.users))
              && (forall s :: s in d.participants ==>
                    d.participants[s] == if s in db.participants then db.participants[s] else s.user == createdBy)
              && d.nextMessage == db.nextMessage + if 1 in db.users then 1 + |d.participants| - |db.participants| else 0
            else d == db
  {
    hide Sound, Post, JoinAll;
    if AcceptsCreate(isGroup, createdBy, ids) {
      var chat, users := db.nextChat, [createdBy] + ids;
      var inserted := InsertChat(db, isGroup);
      var posted := Post(inserted, chat, SYSTEM_USER);
      InsertChatKeeps(db, isGroup);
      InsertedChat(db, isGroup);
      PostKeeps(inserted, chat, SYSTEM_USER);
      PostCounts(inserted, chat);
      JoinAllKeeps(posted, chat, users, Some(createdBy));
      JoinAllCounts(posted, chat, users, Some(createdBy));
      JoinAllGroups(posted, chat, users, Some(createdBy), chat);
      SeatsInChats(db);
      SeatsInChats(JoinAll(posted, chat, users, Some(createdBy)));
    }
  }

  lemma SeatsInChats(db: Db)
    requires Sound(db)
    ensures forall s :: s in db.participants ==> s.chat in db.chats && s.chat < db.nextChat && s.user in db.users
  {
  }

  /** A system message is logged if the system is a user. */
  lemma PostCounts(db: Db, chat: int)
    requires chat in db.chats
    ensures var d := Post(db, chat, SYSTEM_USER);
            && d.nextMessage == db.nextMessage + (if 1 in db.users then 1 else 0)
            && d.users == db.users && d.participants == db.participants
            && forall c :: c in db.chats ==> c in d.chats && d.chats[c].isGroup == db.chats[c].isGroup
  {
  }

  /** One system message for each seat that is taken. */
  lemma {:induction false} JoinAllCounts(db: Db, chat: int, users: seq<int>, creator: Option<int>)
    ensures var d := JoinAll(db, chat, users, creator);
            d.nextMessage == db.nextMessage + if 1 in db.users then |d.participants| - |db.participants| else 0
    decreases |users|
  {
    hide Post;
    if users != [] {
      var one := JoinOne(db, chat, users[0], creator);
      if CanJoin(db, chat, users[0]) { PostCounts(AddMember(db, chat, users[0], creator == Some(users[0])), chat); }
      JoinAllCounts(one, chat, users[1..], creator);
    }
  }

  lemma {:induction false} JoinAllGroups(db: Db, chat: int, users: seq<int>, creator: Option<int>, c: int)
    requires c in db.chats
    ensures c in JoinAll(db, chat, users, creator).chats
    ensures JoinAll(db, chat, users, creator).chats[c].isGroup == db.chats[c].isGroup
    decreases |users|
  {
    hide Post;
    if users != [] {
      if CanJoin(db, chat, users[0]) { PostCounts(AddMember(db, chat, users[0], creator == Some(users[0])), chat); }
      JoinAllGroups(JoinOne(db, chat, users[0], creator), chat, users[1..], creator, c);
    }
  }

  /** Adding gives the listed users that exist a seat in an existing chat, none of them as admin. */
  lemma AddExactly(db: Db, chat: int, addedBy: int, ids: seq<int>)
    requires Sound(db)
    ensures var d := Apply(db, AddRequest(chat, addedBy, ids));
            && (forall s :: s in d.participants <==>
                  s in db.participants
                  || (s.chat == chat && s.user in ids && s.user in db.users
                      && chat in db.chats && chat != 0 && addedBy != 0))
            && (forall s :: s in d.participants ==> d.participants[s] == (s in db.participants && db.participants[s]))
            && d.chats.Keys == db.chats.Keys && d.users == db.users
            && d.nextMessage == db.nextMessage + if 1 in db.users then |d.participants| - |db.participants| else 0
  {
    hide Sound, JoinAll;
    JoinAllKeeps(db, chat, ids, None);
    JoinAllCounts(db, chat, ids, None);
    SeatsInChats(db);
    SeatsInChats(JoinAll(db, chat, ids, None));
  }

  /** How many of the ids are others'. */
  function Others(ids: seq<int>, remover: int): nat {
    if ids == [] then 0 else (if ids[0] == remover then 0 else 1) + Others(ids[1..], remover)
  }

  lemma {:induction false} LeaveAllCounts(db: Db, chat: int, remover: int, ids: seq<int>)
    requires chat in db.chats
    ensures LeaveAll(db, chat, remover, ids).nextMessage
         == db.nextMessage + if 1 in db.users then Others(ids, remover) else 0
    decreases |ids|
  {
    hide Post;
    if ids != [] {
      PostCounts(DeleteMember(db, chat, ids[0]), chat);
      LeaveAllCounts(LeaveOne(db, chat, remover, ids[0]), chat, remover, ids[1..]);
    }
  }

  /** Only an admin of a group removes from it, and then exactly the listed seats but the own one go. */
  lemma RemoveExactly(db: Db, chat: int, remover: int, ids: seq<int>)
    requires Sound(db)
    ensures var d := Apply(db, RemoveRequest(chat, remover, ids));
            if Seat(chat, remover) in db.participants && db.participants[Seat(chat, remover)] && db.chats[chat].isGroup then
              && (forall s :: s in d.participants <==>
                    s in db.participants && !(s.chat == chat && s.user in ids && s.user != remover))
              && (forall s :: s in d.participants ==> d.participants[s] == db.participants[s])
              && d.chats.Keys == db.chats.Keys && d.users == db.users
              && d.nextMessage == db.nextMessage + if 1 in db.users then Others(ids, remover) else 0
            else d == db
  {
    hide Sound, LeaveAll, Others;
    SeatsInChats(db);
    LeaveAllKeeps(db, chat, remover, ids);
    if chat in db.chats { LeaveAllCounts(db, chat, remover, ids); }
  }

  /** The user is an admin of the chat, and no other participant is. */
  ghost predicate IsLastAdmin(db: Db, chat: int, user: int) {
    Seat(chat, user) in db.participants && db.participants[Seat(chat, user)]
    && forall s :: s in db.participants && s.chat == chat && s.user != user ==> !db.participants[s]
  }

  /**
   An exit takes the user's seat, and the chat with it if that had one seat. Otherwise exactly one flag
   changes if the last admin left, that of an heir who has a seat, and none if not.
   */
  lemma ExitExactly(db: Db, chat: int, user: int, heir: int)
    requires Sound(db) && Possible(db, ExitRequest(chat, user, heir))
    ensures var d := Apply(db, ExitRequest(chat, user, heir));
            var lone := |Members(db, chat)| == 1;
            && d.chats.Keys == (if lone then db.chats.Keys - {chat} else db.chats.Keys) && d.users == db.users
            && (forall s :: s in d.participants <==>
                  s in db.participants && s != Seat(chat, user) && !(lone && s.chat == chat))
            && (forall s :: s in d.participants ==>
                  d.participants[s] == (db.participants[s] || (IsLastAdmin(db, chat, user) && s == Seat(chat, heir))))
            && (!lone && IsLastAdmin(db, chat, user) ==> Seat(chat, heir) in d.participants)
            && d.nextMessage == db.nextMessage + if chat in db.chats && 1 in db.users then 1 else 0
  {
    hide Sound, Left, Members;
    SeatsInChats(db);
    LeftKeeps(db, chat, user);
    LeftCounts(db, chat, user);
    HeirIsNeeded(db, chat, user);
    if chat !in db.chats { NoMembers(db, chat); }
  }

  lemma LeftCounts(db: Db, chat: int, user: int)
    ensures Left(db, chat, user).nextMessage == db.nextMessage + if chat in db.chats && 1 in db.users then 1 else 0
  {
  }

  lemma NoMembers(db: Db, chat: int)
    requires forall s :: s in db.participants ==> s.chat != chat
    ensures Members(db, chat) == {}
  {
  }

  lemma HeirIsNeeded(db: Db, chat: int, user: int)
    requires Left(db, chat, user).participants == db.participants - {Seat(chat, user)}
    ensures NeedsHeir(db, chat, user) <==> |Members(db, chat)| != 1 && IsLastAdmin(db, chat, user)
  {
    hide Left, Members;
    var left := Left(db, chat, user);
    assert forall s :: s in db.participants && s.chat == chat && s.user != user ==> s in left.participants;
    if IsAdmin(db, chat, user) && !IsLastAdmin(db, chat, user) {
      var s :| s in db.participants && s.chat == chat && s.user != user && db.participants[s];
      assert s.user in Admins(left, chat);
    }
  }

  /** What the two requests without a chat change. */
  lemma RestExactly(db: Db, user: int, until: int)
    ensures Apply(db, Register(user)) == db.(users := db.users + {user})
    ensures Apply(db, Wait(until)) == db.(now := if db.now <= until then until else db.now)
  {
  }

  /** A chat stays the kind of chat it was created as. */
  lemma KindStays(db: Db, r: Request, chat: int)
    requires Sound(db) && chat in db.chats && chat in Apply(db, r).chats
    ensures Apply(db, r).chats[chat].isGroup == db.chats[chat].isGroup
  {
    hide Sound, Post, JoinAll, LeaveAll;
    match r
    case CreateRequest(isGroup, createdBy, ids) =>
      OldChat(db, chat);
      PostCounts(InsertChat(db, isGroup), db.nextChat);
      var posted := Post(InsertChat(db, isGroup), db.nextChat, SYSTEM_USER);
      JoinAllGroups(posted, db.nextChat, [createdBy] + ids, Some(createdBy), chat);
    case AddRequest(to, addedBy, ids) => JoinAllGroups(db, to, ids, None, chat);
    case SendRequest(to, sender) => SendExactly(db, to, sender);
    case RemoveRequest(to, remover, ids) => LeaveAllGroups(db, to, remover, ids, chat);
    case ExitRequest(to, user, heir) => LeftGroups(db, to, user, chat);
    case _ =>
  }

  lemma OldChat(db: Db, chat: int)
    requires Sound(db) && chat in db.chats
    ensures chat < db.nextChat
  {
  }

  lemma LeftGroups(db: Db, chat: int, user: int, c: int)
    requires c in db.chats
    ensures c in Left(db, chat, user).chats && Left(db, chat, user).chats[c].isGroup == db.chats[c].isGroup
  {
  }

  lemma {:induction false} LeaveAllGroups(db: Db, chat: int, remover: int, ids: seq<int>, c: int)
    requires c in db.chats
    ensures c in LeaveAll(db, chat, remover, ids).chats
    ensures LeaveAll(db, chat, remover, ids).chats[c].isGroup == db.chats[c].isGroup
    decreases |ids|
  {
    hide Post;
    if ids != [] {
      LeftGroups(db, chat, ids[0], c);
      LeaveAllGroups(LeaveOne(db, chat, remover, ids[0]), chat, remover, ids[1..], c);
    }
  }

  /** A full listing holds all chats the user has a seat in. */
  lemma FullListing(db: Db, user: int, chat: int)
    requires Sound(db)
    ensures Listed(db, user, None, chat) <==> Seat(chat, user) in db.participants
  {
  }
}
