/**
 What serial requests keep: every chat has an admin, last_message_id is the newest message, and
 incremental listings report exactly the chats with news.
 */
module ChatInvariants {
  import opened Options
  import opened ChatTables

  /** Foreign keys, and ids below the next ones. */
  ghost predicate Linked(db: Db) {
    && (forall seat :: seat in db.participants ==> seat.chat in db.chats && seat.user in db.users)
    && (forall m :: m in db.messages ==> db.messages[m].chat in db.chats && m < db.nextMessage)
    && (forall c :: c in db.chats ==> c < db.nextChat)
  }

  ghost predicate HasAdmin(db: Db, chat: int) {
    exists user :: IsAdmin(db, chat, user)
  }

  ghost predicate Governed(db: Db) {
    forall c :: c in db.chats ==> HasAdmin(db, c)
  }

  ghost predicate NewestIs(db: Db, chat: int, last: Option<int>) {
    match last
    case None => forall m :: m in db.messages ==> db.messages[m].chat != chat
    case Some(id) => id in db.messages && db.messages[id].chat == chat
                     && forall m :: m in db.messages && db.messages[m].chat == chat ==> m <= id
  }

  ghost predicate Logged(db: Db) {
    forall c :: c in db.chats ==> NewestIs(db, c, db.chats[c].lastMessage)
  }

  /** Later messages are not older, none lies in the future, and none is marked deleted. */
  ghost predicate Timed(db: Db) {
    && (forall m :: m in db.messages ==> db.messages[m].createdAt <= db.now && !db.messages[m].isDeleted)
    && (forall m, n :: m in db.messages && n in db.messages && m <= n
                       ==> db.messages[m].createdAt <= db.messages[n].createdAt)
  }

  ghost predicate Sound(db: Db) {
    Linked(db) && Logged(db) && Timed(db)
  }

  function EmptyDb(users: set<int>, now: int): Db {
    Db(users, map[], map[], map[], 1, 1, now)
  }

  // ----- single statements -----

  lemma PostKeeps(db: Db, chat: int, sender: int)
    requires Sound(db)
    ensures var d := Post(db, chat, sender);
            Sound(d) && d.participants == db.participants && d.chats.Keys == db.chats.Keys && d.users == db.users
            && d.nextChat == db.nextChat
  {
  }

  lemma AddMemberKeeps(db: Db, chat: int, user: int, admin: bool)
    requires Sound(db)
    ensures Sound(AddMember(db, chat, user, admin))
  {
  }

  lemma SeatsOnlyKeeps(db: Db, d: Db)
    requires Sound(db) && d == db.(participants := d.participants)
    requires forall seat :: seat in d.participants ==> seat in db.participants
    ensures Sound(d)
  {
  }

  lemma InsertChatKeeps(db: Db, isGroup: bool)
    requires Sound(db)
    ensures Sound(InsertChat(db, isGroup))
  {
  }

  lemma DeleteChatKeeps(db: Db, chat: int)
    requires Sound(db)
    ensures Sound(DeleteChat(db, chat))
  {
  }

  // ----- runs of statements -----

  /** Seats are only added, except that a taken one keeps its flag. */
  lemma {:induction false} JoinAllKeeps(db: Db, chat: int, users: seq<int>, creator: Option<int>)
    requires Sound(db)
    ensures var d := JoinAll(db, chat, users, creator);
            && Sound(d) && d.chats.Keys == db.chats.Keys && d.users == db.users && d.nextChat == db.nextChat
            && (forall seat :: seat in db.participants ==>
                 seat in d.participants && d.participants[seat] == db.participants[seat])
            && (forall seat :: seat in d.participants && seat !in db.participants ==>
                  seat.chat == chat && seat.user in users && d.participants[seat] == (creator == Some(seat.user)))
            && (chat in db.chats ==> forall u :: u in users && u in db.users ==> Seat(chat, u) in d.participants)
    decreases |users|
  {
    hide Sound, Post;
    if users != [] {
      var one := JoinOne(db, chat, users[0], creator);
      JoinOneKeeps(db, chat, users[0], creator);
      JoinAllKeeps(one, chat, users[1..], creator);
    }
  }

  lemma JoinOneKeeps(db: Db, chat: int, user: int, creator: Option<int>)
    requires Sound(db)
    ensures var d := JoinOne(db, chat, user, creator);
            && Sound(d) && d.chats.Keys == db.chats.Keys && d.users == db.users && d.nextChat == db.nextChat
            && d.participants == if CanJoin(db, chat, user) then db.participants[Seat(chat, user) := creator == Some(user)]
                                 else db.participants
  {
    hide Sound, Post;
    AddMemberKeeps(db, chat, user, creator == Some(user));
    PostKeeps(AddMember(db, chat, user, creator == Some(user)), chat, SYSTEM_USER);
  }

  lemma LeaveOneKeeps(db: Db, chat: int, remover: int, user: int)
    requires Sound(db)
    ensures var d := LeaveOne(db, chat, remover, user);
            && Sound(d) && d.chats.Keys == db.chats.Keys && d.users == db.users
            && d.participants == if user == remover then db.participants else db.participants - {Seat(chat, user)}
  {
    hide Sound, Post;
    SeatsOnlyKeeps(db, DeleteMember(db, chat, user));
    PostKeeps(DeleteMember(db, chat, user), chat, SYSTEM_USER);
  }

  /** A removal takes exactly the listed seats of the chat, except the remover's own. */
  lemma {:induction false} LeaveAllKeeps(db: Db, chat: int, remover: int, ids: seq<int>)
    requires Sound(db)
    ensures var d := LeaveAll(db, chat, remover, ids);
            && Sound(d) && d.chats.Keys == db.chats.Keys && d.users == db.users
            && (forall seat :: seat in d.participants <==>
                  seat in db.participants && !(seat.chat == chat && seat.user in ids && seat.user != remover))
            && (forall seat :: seat in d.participants ==> d.participants[seat] == db.participants[seat])
    decreases |ids|
  {
    hide Sound, Post, LeaveOne;
    if ids != [] {
      LeaveOneKeeps(db, chat, remover, ids[0]);
      LeaveAllKeeps(LeaveOne(db, chat, remover, ids[0]), chat, remover, ids[1..]);
    }
  }

  lemma LeftKeeps(db: Db, chat: int, user: int)
    requires Sound(db)
    ensures var d := Left(db, chat, user);
            Sound(d) && d.chats.Keys == db.chats.Keys && d.users == db.users
            && d.participants == db.participants - {Seat(chat, user)}
  {
    hide Sound, Post;
    SeatsOnlyKeeps(db, DeleteMember(db, chat, user));
    PostKeeps(DeleteMember(db, chat, user), chat, SYSTEM_USER);
  }

  // ----- requests -----

  lemma ApplyKeepsSound(db: Db, r: Request)
    requires Sound(db) && Possible(db, r)
    ensures Sound(Apply(db, r))
  {
    hide Sound, Post, JoinAll, LeaveAll;
    match r
    case CreateRequest(isGroup, createdBy, ids) =>
      InsertChatKeeps(db, isGroup);
      PostKeeps(InsertChat(db, isGroup), db.nextChat, SYSTEM_USER);
      JoinAllKeeps(Post(InsertChat(db, isGroup), db.nextChat, SYSTEM_USER), db.nextChat, [createdBy] + ids, Some(createdBy));
    case AddRequest(chat, addedBy, ids) => JoinAllKeeps(db, chat, ids, None);
    case SendRequest(chat, sender) => PostKeeps(db, chat, sender);
    case RemoveRequest(chat, remover, ids) => LeaveAllKeeps(db, chat, remover, ids);
    case ExitRequest(chat, user, heir) =>
      LeftKeeps(db, chat, user);
      DeleteChatKeeps(Left(db, chat, user), chat);
      SameSeatsKeeps(Left(db, chat, user), Promote(Left(db, chat, user), chat, heir));
    case Register(user) => UsersGrow(db, user);
    case Wait(until) =>
      if db.now <= until { TimePasses(db, until); }
  }

  lemma SameSeatsKeeps(db: Db, d: Db)
    requires Sound(db) && d == db.(participants := d.participants) && d.participants.Keys == db.participants.Keys
    ensures Sound(d)
  {
  }

  lemma UsersGrow(db: Db, user: int)
    requires Sound(db)
    ensures Sound(db.(users := db.users + {user}))
  {
  }

  lemma TimePasses(db: Db, until: int)
    requires Sound(db) && db.now <= until
    ensures Sound(db.(now := until))
  {
  }

  lemma {:induction false} ApplyAllKeepsSound(db: Db, rs: seq<Request>)
    requires Sound(db) && Serial(db, rs)
    ensures Sound(ApplyAll(db, rs))
    decreases |rs|
  {
    hide Sound, Apply;
    if rs != [] {
      ApplyKeepsSound(db, rs[0]);
      ApplyAllKeepsSound(Apply(db, rs[0]), rs[1..]);
    }
  }

  // ----- admins -----

  /** A seat with the admin flag that is still there keeps its chat governed. */
  lemma AdminStays(db: Db, d: Db, chat: int, user: int)
    requires IsAdmin(db, chat, user)
    requires Seat(chat, user) in d.participants && d.participants[Seat(chat, user)]
    ensures HasAdmin(d, chat)
  {
    assert IsAdmin(d, chat, user);
  }

  lemma JoiningKeepsAdmins(db: Db, chat: int, users: seq<int>, creator: Option<int>)
    requires Sound(db)
    ensures var d := JoinAll(db, chat, users, creator);
            forall c :: c in db.chats && HasAdmin(db, c) ==> HasAdmin(d, c)
  {
    var d := JoinAll(db, chat, users, creator);
    JoinAllKeeps(db, chat, users, creator);
    forall c | c in db.chats && HasAdmin(db, c) ensures HasAdmin(d, c) {
      var user :| IsAdmin(db, c, user);
      AdminStays(db, d, c, user);
    }
  }

  /** A created chat gets an admin exactly when its creator is a user. */
  lemma CreateGoverns(db: Db, isGroup: bool, createdBy: int, ids: seq<int>)
    requires Sound(db) && Governed(db)
    ensures Governed(Create(db, isGroup, createdBy, ids))
       <==> (AcceptsCreate(isGroup, createdBy, ids) ==> createdBy in db.users)
  {
    hide Sound, JoinAll;
    if AcceptsCreate(isGroup, createdBy, ids) {
      var users, chat := [createdBy] + ids, db.nextChat;
      var inserted := InsertChat(db, isGroup);
      var posted := Post(inserted, chat, SYSTEM_USER);
      var d := JoinAll(posted, chat, users, Some(createdBy));
      InsertChatKeeps(db, isGroup);
      PostKeeps(inserted, chat, SYSTEM_USER);
      JoinAllKeeps(posted, chat, users, Some(createdBy));
      JoiningKeepsAdmins(posted, chat, users, Some(createdBy));
      NewChatIsEmpty(db, posted);
      forall c | c in d.chats && c != chat ensures HasAdmin(d, c) {
        assert c in db.chats && HasAdmin(db, c);
        var user :| IsAdmin(db, c, user);
        AdminStays(db, posted, c, user);
      }
      assert createdBy in users && chat in d.chats && d == Create(db, isGroup, createdBy, ids);
      if createdBy in db.users {
        assert IsAdmin(d, chat, createdBy);
        assert HasAdmin(d, chat) && Governed(d);
      } else {
        NoForeignSeat(d, chat, createdBy);
        assert forall user :: !IsAdmin(d, chat, user);
        assert !HasAdmin(d, chat) && !Governed(d);
      }
    }
  }

  lemma NewChatIsEmpty(db: Db, d: Db)
    requires Sound(db) && d.participants == db.participants
    ensures forall seat :: seat in d.participants ==> seat.chat != db.nextChat
  {
  }

  lemma NoForeignSeat(db: Db, chat: int, user: int)
    requires Sound(db) && user !in db.users
    ensures Seat(chat, user) !in db.participants
  {
  }

  /** Whenever an exit needs a new admin there is a participant left to promote. */
  lemma HeirExists(db: Db, chat: int, user: int)
    requires NeedsHeir(db, chat, user)
    ensures Members(Left(db, chat, user), chat) == Members(db, chat) - {user}
    ensures Members(Left(db, chat, user), chat) != {}
  {
    var members, rest := Members(db, chat), Members(Left(db, chat, user), chat);
    assert Left(db, chat, user).participants == db.participants - {Seat(chat, user)};
    assert Seat(chat, user) in db.participants && user in members;
    forall u ensures u in rest <==> u in members - {user} {
      assert u in members <==> Seat(chat, u) in db.participants;
      assert u in rest <==> Seat(chat, u) in Left(db, chat, user).participants;
    }
    assert members != {user};
    assert (forall u :: u in members ==> u == user) ==> members == {user};
  }

  lemma RemoveGoverns(db: Db, chat: int, remover: int, ids: seq<int>)
    requires Sound(db) && Governed(db)
    ensures Governed(Remove(db, chat, remover, ids))
  {
    hide Sound, LeaveAll;
    var d := Remove(db, chat, remover, ids);
    LeaveAllKeeps(db, chat, remover, ids);
    if MayRemove(db, chat, remover) {
      forall c | c in d.chats ensures HasAdmin(d, c) {
        if c == chat {
          AdminStays(db, d, chat, remover);
        } else {
          var user :| IsAdmin(db, c, user);
          AdminStays(db, d, c, user);
        }
      }
    }
  }

  lemma ExitGoverns(db: Db, chat: int, user: int, heir: int)
    requires Sound(db) && Governed(db) && Possible(db, ExitRequest(chat, user, heir))
    ensures Governed(Exit(db, chat, user, heir))
  {
    hide Sound, Left;
    var left := Left(db, chat, user);
    var d := Exit(db, chat, user, heir);
    LeftKeeps(db, chat, user);
    forall c | c in d.chats ensures HasAdmin(d, c) {
      assert HasAdmin(db, c);
      if c != chat || !IsAdmin(db, chat, user) {
        var admin :| IsAdmin(db, c, admin);
        AdminStays(db, d, c, admin);
      } else if NeedsHeir(db, chat, user) {
        assert IsAdmin(d, chat, heir);
      } else {
        assert |Members(db, chat)| != 1;
        var admin :| admin in Admins(left, chat);
        assert IsAdmin(d, chat, admin);
      }
    }
  }

  lemma ApplyGoverns(db: Db, r: Request)
    requires Sound(db) && Governed(db) && Possible(db, r) && CreatorExists(db, r)
    ensures Governed(Apply(db, r))
  {
    hide Sound, Post, JoinAll, LeaveAll, Create, Remove, Exit;
    match r
    case CreateRequest(isGroup, createdBy, ids) => CreateGoverns(db, isGroup, createdBy, ids);
    case AddRequest(chat, addedBy, ids) =>
      JoinAllKeeps(db, chat, ids, None);
      JoiningKeepsAdmins(db, chat, ids, None);
    case SendRequest(chat, sender) => PostKeeps(db, chat, sender); PostGoverns(db, chat, sender);
    case RemoveRequest(chat, remover, ids) => RemoveGoverns(db, chat, remover, ids);
    case ExitRequest(chat, user, heir) => ExitGoverns(db, chat, user, heir);
    case Register(user) => SameSeatsGovern(db, Apply(db, r));
    case Wait(until) => SameSeatsGovern(db, Apply(db, r));
  }

  lemma SameSeatsGovern(db: Db, d: Db)
    requires Governed(db) && d.participants == db.participants && d.chats.Keys == db.chats.Keys
    ensures Governed(d)
  {
    forall c | c in d.chats ensures HasAdmin(d, c) {
      assert HasAdmin(db, c);
      var user :| IsAdmin(db, c, user);
      AdminStays(db, d, c, user);
    }
  }

  lemma PostGoverns(db: Db, chat: int, sender: int)
    requires Sound(db) && Governed(db)
    ensures Governed(Post(db, chat, sender))
  {
    hide Post, Sound;
    PostKeeps(db, chat, sender);
    SameSeatsGovern(db, Post(db, chat, sender));
  }

  lemma {:induction false} ApplyAllGoverns(db: Db, rs: seq<Request>)
    requires Sound(db) && Governed(db) && Serial(db, rs)
    ensures Governed(ApplyAll(db, rs))
    decreases |rs|
  {
    hide Sound, Apply, Governed;
    if rs != [] {
      ApplyKeepsSound(db, rs[0]);
      ApplyGoverns(db, rs[0]);
      ApplyAllGoverns(Apply(db, rs[0]), rs[1..]);
    }
  }

  /** In every serial run, every chat that exists has a participant who is an admin. */
  lemma AdminPreservation(users: set<int>, now: int, rs: seq<Request>, chat: int)
    requires Serial(EmptyDb(users, now), rs)
    ensures var db := ApplyAll(EmptyDb(users, now), rs);
            chat in db.chats ==> Members(db, chat) != {} && Admins(db, chat) != {}
  {
    var db := ApplyAll(EmptyDb(users, now), rs);
    assert Sound(EmptyDb(users, now));
    ApplyAllGoverns(EmptyDb(users, now), rs);
    if chat in db.chats {
      var user :| IsAdmin(db, chat, user);
      assert user in Admins(db, chat) && user in Members(db, chat);
    }
  }

  /**
   An exit deletes the chat exactly when it had one participant, whoever sends the request: one
   who is not in the chat deletes it under its last participant.
   */
  lemma ExitDeletesLoneChat(db: Db, chat: int, user: int, heir: int)
    requires Sound(db) && chat in db.chats
    ensures chat !in Exit(db, chat, user, heir).chats <==> |Members(db, chat)| == 1
    ensures (chat !in Exit(db, chat, user, heir).chats && Members(Left(db, chat, user), chat) != {})
       <==> (|Members(db, chat)| == 1 && user !in Members(db, chat))
  {
    hide Sound, Left, Members, Promote;
    LeftKeeps(db, chat, user);
    MembersLeft(db, chat, user);
    if |Members(db, chat)| == 1 { LoneElement(Members(db, chat), user); }
    StillThere(db, chat, user, heir);
  }

  lemma MembersLeft(db: Db, chat: int, user: int)
    requires Left(db, chat, user).participants == db.participants - {Seat(chat, user)}
    ensures Members(Left(db, chat, user), chat) == Members(db, chat) - {user}
  {
    hide Left;
  }

  lemma StillThere(db: Db, chat: int, user: int, heir: int)
    requires chat in db.chats && Left(db, chat, user).chats.Keys == db.chats.Keys
    ensures chat in Exit(db, chat, user, heir).chats <==> |Members(db, chat)| != 1
  {
    hide Left, Members;
  }

  lemma LoneElement(s: set<int>, x: int)
    requires |s| == 1
    ensures s - {x} != {} <==> x !in s
  {
    if x in s { assert |s - {x}| == 0; } else { assert s - {x} == s; }
  }

  // ----- the message log -----

  /** In every serial run, each chat's last_message_id is its newest message. */
  lemma LastMessageIsNewest(users: set<int>, now: int, rs: seq<Request>, chat: int)
    requires Serial(EmptyDb(users, now), rs)
    ensures var db := ApplyAll(EmptyDb(users, now), rs);
            chat in db.chats ==> NewestIs(db, chat, db.chats[chat].lastMessage)
  {
    assert Sound(EmptyDb(users, now));
    ApplyAllKeepsSound(EmptyDb(users, now), rs);
  }

  /** The newest message of a chat stands for all of them in an incremental listing. */
  lemma ListedByNewest(db: Db, user: int, since: int, chat: int)
    requires Sound(db)
    ensures Listed(db, user, Some(since), chat)
       <==> chat in db.chats && Seat(chat, user) in db.participants
            && match db.chats[chat].lastMessage
               case None => true
               case Some(id) => id in db.messages && db.messages[id].createdAt > since
  {
  }

  /** Incremental GET_CHATS, in every serial run: exactly the user's chats with no message or news. */
  lemma IncrementalListing(users: set<int>, now: int, rs: seq<Request>, user: int, since: int, chat: int)
    requires Serial(EmptyDb(users, now), rs)
    ensures var db := ApplyAll(EmptyDb(users, now), rs);
            Listed(db, user, Some(since), chat) <==>
            (chat in db.chats && Seat(chat, user) in db.participants
             && match db.chats[chat].lastMessage
                case None => true
                case Some(id) => id in db.messages && db.messages[id].createdAt > since)
  {
    assert Sound(EmptyDb(users, now));
    ApplyAllKeepsSound(EmptyDb(users, now), rs);
    ListedByNewest(ApplyAll(EmptyDb(users, now), rs), user, since, chat);
  }
}
