/**
 The data server's handling of chat requests, statement by statement on the tables it updates,
 proved to do what ChatTables says of each request.
 */
module ChatStore {
  import opened Options
  import opened ChatTables

  /** A response code, or none where the handler leaves it unset. */
  type Code = Option<int>

  lemma {:induction false} LeastExists(s: set<int>)
    requires s != {}
    ensures exists x :: x in s && forall y :: y in s ==> x <= y
  {
    assert (forall x :: x !in s) ==> s == {};
    var x :| x in s;
    var rest := s - {x};
    if rest != {} {
      LeastExists(rest);
      var y :| y in rest && forall z :: z in rest ==> y <= z;
      var least := if x <= y then x else y;
      forall z | z in s ensures least <= z {
        assert z == x || z in rest;
      }
      assert least in s;
    } else {
      assert forall y :: y in s ==> y == x || y in rest;
    }
  }

  class Store {
    var users: set<int>
    var chats: map<int, Chat>
    var participants: map<Seat, bool>
    var messages: map<int, Message>
    var nextChat: int
    var nextMessage: int
    var now: int

    function State(): Db
      reads this
    {
      Db(users, chats, participants, messages, nextChat, nextMessage, now)
    }

    constructor (users: set<int>, now: int)
      ensures State() == Db(users, map[], map[], map[], 1, 1, now)
    {
      this.users, this.now := users, now;
      chats, participants, messages := map[], map[], map[];
      nextChat, nextMessage := 1, 1;
    }

    // ----- chat_manager -----

    method CreateChat(isGroup: bool) returns (id: int)
      modifies this`chats, this`nextChat
      ensures State() == InsertChat(old(State()), isGroup) && id == old(nextChat)
    {
      id := nextChat;
      chats := chats[id := Chat(isGroup, None)];
      nextChat := nextChat + 1;
    }

    method AddToChat(chat: int, user: int, admin: bool) returns (ok: bool)
      modifies this`participants
      ensures ok == CanJoin(old(State()), chat, user)
      ensures State() == AddMember(old(State()), chat, user, admin)
    {
      ok := chat in chats && user in users && Seat(chat, user) !in participants;
      if ok {
        participants := participants[Seat(chat, user) := admin];
      }
    }

    method SendMessage(chat: int, sender: int) returns (ok: bool)
      modifies this`messages, this`chats, this`nextMessage
      ensures ok == CanPost(old(State()), chat, sender)
      ensures State() == Post(old(State()), chat, sender)
    {
      if chat !in chats || sender !in users {
        return false;
      }
      var id := nextMessage;
      messages := messages[id := Message(chat, sender, now, false)];
      nextMessage := nextMessage + 1;
      chats := chats[chat := chats[chat].(lastMessage := Some(id))];
      return true;
    }

    method RemoveFromChat(chat: int, user: int)
      modifies this`participants
      ensures State() == DeleteMember(old(State()), chat, user)
    {
      participants := participants - {Seat(chat, user)};
    }

    method IsUserAdmin(chat: int, user: int) returns (admin: bool)
      ensures admin == IsAdmin(State(), chat, user)
    {
      admin := Seat(chat, user) in participants && participants[Seat(chat, user)];
    }

    /** promote_random_participant_to_admin: whichever row comes first. */
    method PromoteParticipant(chat: int) returns (ok: bool, heir: int)
      modifies this`participants
      ensures ok <==> Members(old(State()), chat) != {}
      ensures ok ==> heir in Members(old(State()), chat) && State() == Promote(old(State()), chat, heir)
      ensures !ok ==> State() == old(State())
    {
      var members := Members(State(), chat);
      ok, heir := members != {}, 0;
      if ok {
        heir :| heir in members;
        participants := participants[Seat(chat, heir) := true];
      }
    }

    method RemoveChat(chat: int)
      modifies this`chats, this`participants, this`messages
      ensures State() == DeleteChat(old(State()), chat)
    {
      chats := chats - {chat};
      participants := map seat | seat in participants && seat.chat != chat :: participants[seat];
      messages := map m | m in messages && messages[m].chat != chat :: messages[m];
    }

    /** get_chats: rows in the order of chat_id, cut at MAX_CHATS. */
    method GetChats(user: int, since: Option<int>) returns (ids: seq<int>)
      ensures forall c :: c in ids ==> Listed(State(), user, since, c)
      ensures forall i, j :: 0 <= i < j < |ids| ==> ids[i] < ids[j]
      ensures |ids| <= 100
      ensures forall c :: Listed(State(), user, since, c) && c !in ids ==>
                |ids| == 100 && forall d :: d in ids ==> d < c
    {
      var rest := set c | c in chats && Listed(State(), user, since, c);
      ids := [];
      while rest != {} && |ids| < MAX_CHATS
        invariant |ids| <= MAX_CHATS
        invariant forall c :: c in ids || c in rest <==> Listed(State(), user, since, c)
        invariant forall i, j :: 0 <= i < j < |ids| ==> ids[i] < ids[j]
        invariant forall i, d :: 0 <= i < |ids| && d in rest ==> ids[i] < d
        decreases |rest|
      {
        LeastExists(rest);
        var c :| c in rest && forall d :: d in rest ==> c <= d;
        ids := ids + [c];
        rest := rest - {c};
      }
    }

    // ----- handle_action -----

    /** The insertion loops of CREATE_CHAT and ADD_TO_GROUP_CHAT. */
    method AddUsers(chat: int, ids: seq<int>, creator: Option<int>) returns (added: nat)
      modifies this`participants, this`messages, this`chats, this`nextMessage
      ensures State() == JoinAll(old(State()), chat, ids, creator)
      ensures |participants| == old(|participants|) + added
    {
      added := 0;
      var i := 0;
      assert ids[0..] == ids;
      while i < |ids|
        invariant 0 <= i <= |ids|
        invariant JoinAll(State(), chat, ids[i..], creator) == JoinAll(old(State()), chat, ids, creator)
        invariant |participants| == old(|participants|) + added
      {
        assert ids[i..][1..] == ids[i + 1..];
        var ok := AddToChat(chat, ids[i], creator == Some(ids[i]));
        if ok {
          var _ := SendMessage(chat, SYSTEM_USER);
          added := added + 1;
        }
        i := i + 1;
      }
    }

    method HandleCreateChat(isGroup: bool, createdBy: int, ids: seq<int>) returns (code: Code, added: nat)
      modifies this
      ensures State() == Create(old(State()), isGroup, createdBy, ids)
      ensures code == if createdBy == 0 then None else if AcceptsCount(isGroup, |ids|) then Some(200) else Some(400)
      ensures |participants| == old(|participants|) + added
    {
      code, added := None, 0;
      if createdBy != 0 {
        if 0 < |ids| < MAX_PARTICIPANTS - (if isGroup then 1 else 8) {
          var chat := CreateChat(isGroup);
          var _ := SendMessage(chat, SYSTEM_USER);
          added := AddUsers(chat, [createdBy] + ids, Some(createdBy));
          code := Some(200);
        } else {
          code := Some(400);
        }
      }
    }

    method HandleAddToGroupChat(chat: int, addedBy: int, ids: seq<int>) returns (code: Code, added: nat)
      modifies this
      ensures State() == Add(old(State()), chat, addedBy, ids)
      ensures code == if chat == 0 || addedBy == 0 || ids == [] then None else if added > 0 then Some(200) else Some(400)
      ensures |participants| == old(|participants|) + added
    {
      code, added := None, 0;
      if chat != 0 {
        if |ids| > 0 && addedBy != 0 {
          added := AddUsers(chat, ids, None);
          code := if added > 0 then Some(200) else Some(400);
        }
      }
    }

    method HandleRemoveFromChat(chat: int, remover: int, ids: seq<int>) returns (code: Code)
      modifies this
      ensures State() == Remove(old(State()), chat, remover, ids)
      ensures code == if MayRemove(old(State()), chat, remover) then Some(200) else Some(403)
    {
      var admin := IsUserAdmin(chat, remover);
      if !admin {
        return Some(403);
      }
      if !(chat in chats && chats[chat].isGroup) {
        return Some(403);
      }
      var i := 0;
      assert ids[0..] == ids;
      while i < |ids|
        invariant 0 <= i <= |ids|
        invariant LeaveAll(State(), chat, remover, ids[i..]) == LeaveAll(old(State()), chat, remover, ids)
      {
        assert ids[i..][1..] == ids[i + 1..];
        if ids[i] != remover {
          RemoveFromChat(chat, ids[i]);
          var _ := SendMessage(chat, SYSTEM_USER);
        }
        i := i + 1;
      }
      return Some(200);
    }

    /** The heir is only meaningful when one was needed; a failed promotion is answered with 500. */
    method HandleExitChat(chat: int, user: int) returns (code: Code, heir: int)
      modifies this
      ensures code == Some(200) ==> State() == Exit(old(State()), chat, user, heir)
                                    && Possible(old(State()), ExitRequest(chat, user, heir))
      ensures code == Some(200) || code == Some(500)
      ensures code == Some(500) <==> NeedsHeir(old(State()), chat, user) && Members(Left(old(State()), chat, user), chat) == {}
    {
      heir := 0;
      var admin := IsUserAdmin(chat, user);
      var count := |Members(State(), chat)|;
      RemoveFromChat(chat, user);
      var _ := SendMessage(chat, SYSTEM_USER);
      if count == 1 {
        RemoveChat(chat);
        return Some(200), heir;
      }
      if admin {
        var admins := |Admins(State(), chat)|;
        if admins == 0 {
          var ok;
          ok, heir := PromoteParticipant(chat);
          if !ok {
            return Some(500), heir;
          }
        }
      }
      return Some(200), heir;
    }
  }
}
