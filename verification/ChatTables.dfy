/**
 The chat tables of the data server and what each request does to them, as functions: chats,
 participants and messages, with the key constraints the statements rely on.
 */
module ChatTables {
  import opened Options

  const SYSTEM_USER: int := 1
  const MAX_PARTICIPANTS: int := 10
  const MAX_CHATS: nat := 100

  datatype Chat = Chat(isGroup: bool, lastMessage: Option<int>)

  datatype Seat = Seat(chat: int, user: int)

  datatype Message = Message(chat: int, sender: int, createdAt: int, isDeleted: bool)

  /** `participants` maps a seat to its is_admin flag; ids are handed out in increasing order. */
  datatype Db = Db(
    users: set<int>,
    chats: map<int, Chat>,
    participants: map<Seat, bool>,
    messages: map<int, Message>,
    nextChat: int,
    nextMessage: int,
    now: int)

  // ----- statements -----

  function Members(db: Db, chat: int): set<int> {
    set seat | seat in db.participants && seat.chat == chat :: seat.user
  }

  function Admins(db: Db, chat: int): set<int> {
    set seat | seat in db.participants && seat.chat == chat && db.participants[seat] :: seat.user
  }

  predicate IsAdmin(db: Db, chat: int, user: int) {
    Seat(chat, user) in db.participants && db.participants[Seat(chat, user)]
  }

  predicate IsGroup(db: Db, chat: int) {
    chat in db.chats && db.chats[chat].isGroup
  }

  function InsertChat(db: Db, isGroup: bool): Db {
    db.(chats := db.chats[db.nextChat := Chat(isGroup, None)], nextChat := db.nextChat + 1)
  }

  /** The insert needs an existing chat and user, and a seat that is still free. */
  predicate CanJoin(db: Db, chat: int, user: int) {
    chat in db.chats && user in db.users && Seat(chat, user) !in db.participants
  }

  function AddMember(db: Db, chat: int, user: int, admin: bool): Db {
    if CanJoin(db, chat, user) then db.(participants := db.participants[Seat(chat, user) := admin]) else db
  }

  predicate CanPost(db: Db, chat: int, sender: int) {
    chat in db.chats && sender in db.users
  }

  /** send_message: the insert, then the update of the chat's last_message_id. */
  function Post(db: Db, chat: int, sender: int): Db {
    if CanPost(db, chat, sender) then
      db.(messages := db.messages[db.nextMessage := Message(chat, sender, db.now, false)],
          chats := db.chats[chat := db.chats[chat].(lastMessage := Some(db.nextMessage))],
          nextMessage := db.nextMessage + 1)
    else db
  }

  function DeleteMember(db: Db, chat: int, user: int): Db {
    db.(participants := db.participants - {Seat(chat, user)})
  }

  /** Deleting a chat deletes its seats and messages with it. */
  function DeleteChat(db: Db, chat: int): Db {
    db.(chats := db.chats - {chat},
        participants := map seat | seat in db.participants && seat.chat != chat :: db.participants[seat],
        messages := map m | m in db.messages && db.messages[m].chat != chat :: db.messages[m])
  }

  function Promote(db: Db, chat: int, user: int): Db {
    if Seat(chat, user) in db.participants then db.(participants := db.participants[Seat(chat, user) := true]) else db
  }

  // ----- requests -----

  /** add_to_chat for each user in turn, with a system message after each success. */
  function JoinAll(db: Db, chat: int, users: seq<int>, creator: Option<int>): Db
    decreases |users|
  {
    if users == [] then db else JoinAll(JoinOne(db, chat, users[0], creator), chat, users[1..], creator)
  }

  function JoinOne(db: Db, chat: int, user: int, creator: Option<int>): Db {
    if CanJoin(db, chat, user)
    then Post(AddMember(db, chat, user, creator == Some(user)), chat, SYSTEM_USER) else db
  }

  predicate AcceptsCount(isGroup: bool, count: nat) {
    0 < count < MAX_PARTICIPANTS - (if isGroup then 1 else 8)
  }

  predicate AcceptsCreate(isGroup: bool, createdBy: int, ids: seq<int>) {
    createdBy != 0 && AcceptsCount(isGroup, |ids|)
  }

  function Create(db: Db, isGroup: bool, createdBy: int, ids: seq<int>): Db {
    if AcceptsCreate(isGroup, createdBy, ids) then
      JoinAll(Post(InsertChat(db, isGroup), db.nextChat, SYSTEM_USER), db.nextChat, [createdBy] + ids, Some(createdBy))
    else db
  }

  function Add(db: Db, chat: int, addedBy: int, ids: seq<int>): Db {
    if chat != 0 && addedBy != 0 then JoinAll(db, chat, ids, None) else db
  }

  function LeaveOne(db: Db, chat: int, remover: int, user: int): Db {
    if user == remover then db else Post(DeleteMember(db, chat, user), chat, SYSTEM_USER)
  }

  function LeaveAll(db: Db, chat: int, remover: int, ids: seq<int>): Db
    decreases |ids|
  {
    if ids == [] then db else LeaveAll(LeaveOne(db, chat, remover, ids[0]), chat, remover, ids[1..])
  }

  predicate MayRemove(db: Db, chat: int, remover: int) {
    IsAdmin(db, chat, remover) && IsGroup(db, chat)
  }

  function Remove(db: Db, chat: int, remover: int, ids: seq<int>): Db {
    if MayRemove(db, chat, remover) then LeaveAll(db, chat, remover, ids) else db
  }

  function Left(db: Db, chat: int, user: int): Db {
    Post(DeleteMember(db, chat, user), chat, SYSTEM_USER)
  }

  predicate NeedsHeir(db: Db, chat: int, user: int) {
    |Members(db, chat)| != 1 && IsAdmin(db, chat, user) && Admins(Left(db, chat, user), chat) == {}
  }

  /** `heir` is the row the select for promotion happens to return. */
  function Exit(db: Db, chat: int, user: int, heir: int): Db {
    var left := Left(db, chat, user);
    if |Members(db, chat)| == 1 then DeleteChat(left, chat)
    else if NeedsHeir(db, chat, user) then Promote(left, chat, heir)
    else left
  }

  /** get_chats: all chats of the user, or those without a message or with one after `since`. */
  predicate Listed(db: Db, user: int, since: Option<int>, chat: int) {
    chat in db.chats && Seat(chat, user) in db.participants
    && (since == None
        || db.chats[chat].lastMessage == None
        || exists m :: m in db.messages && db.messages[m].chat == chat
                       && db.messages[m].createdAt > since.value && !db.messages[m].isDeleted)
  }

  datatype Request =
    | CreateRequest(isGroup: bool, createdBy: int, ids: seq<int>)
    | AddRequest(chat: int, addedBy: int, ids: seq<int>)
    | SendRequest(chat: int, sender: int)
    | RemoveRequest(chat: int, remover: int, ids: seq<int>)
    | ExitRequest(chat: int, user: int, heir: int)
    | Register(user: int)
    | Wait(until: int)

  function Apply(db: Db, r: Request): Db {
    match r
    case CreateRequest(isGroup, createdBy, ids) => Create(db, isGroup, createdBy, ids)
    case AddRequest(chat, addedBy, ids) => Add(db, chat, addedBy, ids)
    case SendRequest(chat, sender) => Post(db, chat, sender)
    case RemoveRequest(chat, remover, ids) => Remove(db, chat, remover, ids)
    case ExitRequest(chat, user, heir) => Exit(db, chat, user, heir)
    case Register(user) => db.(users := db.users + {user})
    case Wait(until) => if db.now <= until then db.(now := until) else db
  }

  /** A heir is one of the rows the select can return. */
  predicate Possible(db: Db, r: Request) {
    r.ExitRequest? && NeedsHeir(db, r.chat, r.user) ==> Seat(r.chat, r.heir) in Left(db, r.chat, r.user).participants
  }

  /** Token checks make sure that a chat's creator exists. */
  predicate CreatorExists(db: Db, r: Request) {
    r.CreateRequest? && AcceptsCreate(r.isGroup, r.createdBy, r.ids) ==> r.createdBy in db.users
  }

  function ApplyAll(db: Db, rs: seq<Request>): Db
    decreases |rs|
  {
    if rs == [] then db else ApplyAll(Apply(db, rs[0]), rs[1..])
  }

  /** A serial run of requests that the database can go through. */
  predicate Serial(db: Db, rs: seq<Request>)
    decreases |rs|
  {
    rs == [] || (Possible(db, rs[0]) && CreatorExists(db, rs[0]) && Serial(Apply(db, rs[0]), rs[1..]))
  }
}
