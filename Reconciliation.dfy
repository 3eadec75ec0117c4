/**
 * What each chat handler commits, as a function of the store state it reads
 * and the event it receives, and the properties of those commits.
 *
 * A handler reads the store state before its first commit and never after,
 * so the state is a parameter here. The store's own mutations are not part
 * of the model: a commit is the command the handler issues, not its effect.
 */
module Reconciliation {
  import opened Model
  import opened Conversions
  import opened Ordering

  // ---------------------------------------------------------------------------
  // Lookups
  // ---------------------------------------------------------------------------

  /** Some message of the list has id `id` (what `messages.find(m => m.id === id)` finds). */
  predicate HasMessageId(messages: seq<Message>, id: int)
    ensures HasMessageId(messages, id) <==> exists i :: 0 <= i < |messages| && messages[i].id == id
  {
    exists m :: m in messages && m.id == id
  }

  /** `getMessageById`: the room is known and holds a message with that id. */
  predicate MessageExists(state: RootState, roomId: int, id: int)
    ensures MessageExists(state, roomId, id) ==> roomId in state.roomsDict
  {
    roomId in state.roomsDict && HasMessageId(state.roomsDict[roomId].messages, id)
  }

  /** The ids of a message list: the keys of the id-presence dictionary `loadMessages` builds. */
  function IdsOf(messages: seq<Message>): (r: set<int>)
    ensures forall m :: m in messages ==> m.id in r
    ensures forall id :: id in r ==> HasMessageId(messages, id)
  {
    set m | m in messages :: m.id
  }

  lemma IdsOfSnoc(messages: seq<Message>, m: Message)
    ensures IdsOf(messages + [m]) == IdsOf(messages) + {m.id}
  {
    var s := messages + [m];
    forall id | id in IdsOf(s) ensures id in IdsOf(messages) + {m.id} {
      var x :| x in s && x.id == id;
      if x != m {
        assert x in messages;
      }
    }
    forall id | id in IdsOf(messages) ensures id in IdsOf(s) {
      var x :| x in messages && x.id == id;
      assert x in s;
    }
    assert m in s;
  }

  // ---------------------------------------------------------------------------
  // loadMessages
  // ---------------------------------------------------------------------------

  /** `content.filter(i => !seen[i.id])`: the history entries not yet in the room, in order. */
  function NewMessages(content: seq<MessageDto>, seen: set<int>): (r: seq<MessageDto>)
    ensures |r| <= |content|
    ensures forall d :: d in r ==> d in content && d.id !in seen
  {
    if content == [] then []
    else (if content[0].id in seen then [] else [content[0]]) + NewMessages(content[1..], seen)
  }

  /** `dtos.map(getMessage)`. */
  function GetMessages(dtos: seq<MessageDto>): (r: seq<Message>)
    ensures |r| == |dtos|
    ensures forall i :: 0 <= i < |dtos| ==> r[i] == GetMessage(dtos[i])
  {
    seq(|dtos|, i requires 0 <= i < |dtos| => GetMessage(dtos[i]))
  }

  /**
   * `loadMessages`: a non-empty page adds the messages the room does not hold
   * yet; an empty page marks the room's history as fully loaded. The room is
   * read only for a non-empty page, and the handler throws when it is unknown.
   */
  function LoadMessages(state: RootState, roomId: int, content: seq<MessageDto>): (r: seq<Commit>)
    requires content != [] ==> roomId in state.roomsDict
    ensures |r| == 1 && (r[0].AddMessages? || r[0].SetAllLoaded?) && r[0].roomId == roomId
    ensures r[0].SetAllLoaded? <==> content == []
    ensures r[0].AddMessages? ==> |r[0].messages| <= |content|
  {
    if |content| > 0 then
      var seen := IdsOf(state.roomsDict[roomId].messages);
      [Commit.AddMessages(roomId, GetMessages(NewMessages(content, seen)))]
    else
      [Commit.SetAllLoaded(roomId)]
  }

  /** An entry passes the filter exactly when it is in the page and its id is not seen. */
  lemma {:induction false} NewMessagesMembers(content: seq<MessageDto>, seen: set<int>, d: MessageDto)
    ensures d in NewMessages(content, seen) <==> d in content && d.id !in seen
  {
    if content != [] {
      NewMessagesMembers(content[1..], seen, d);
      assert content == [content[0]] + content[1..];
    }
  }

  /** The filter works entry by entry, so it keeps the page's order: it distributes over concatenation. */
  lemma {:induction false} NewMessagesAppend(a: seq<MessageDto>, b: seq<MessageDto>, seen: set<int>)
    ensures NewMessages(a + b, seen) == NewMessages(a, seen) + NewMessages(b, seen)
  {
    if a != [] {
      assert (a + b)[1..] == a[1..] + b;
      NewMessagesAppend(a[1..], b, seen);
    } else {
      assert a + b == b;
    }
  }

  /** Entries the room already holds are all dropped; a page of such entries adds nothing. */
  lemma NewMessagesAllSeen(content: seq<MessageDto>, seen: set<int>)
    requires forall d :: d in content ==> d.id in seen
    ensures NewMessages(content, seen) == []
  {
    if NewMessages(content, seen) != [] {
      var d := NewMessages(content, seen)[0];
      NewMessagesMembers(content, seen, d);
    }
  }

  /**
   * `loadMessages` commits `setAllLoaded` exactly for an empty page; otherwise
   * it commits one `addMessages` for that room, holding a converted copy of
   * exactly the page's entries whose id the room does not hold.
   */
  lemma LoadMessagesOutcome(state: RootState, roomId: int, content: seq<MessageDto>)
    requires content != [] ==> roomId in state.roomsDict
    ensures var r := LoadMessages(state, roomId, content);
      && |r| == 1
      && (Commit.SetAllLoaded(roomId) in r <==> content == [])
      && (content != [] ==>
            && r[0].AddMessages? && r[0].roomId == roomId
            && (var seen := IdsOf(state.roomsDict[roomId].messages);
                && (forall d :: d in content && d.id !in seen ==> GetMessage(d) in r[0].messages)
                && (forall m :: m in r[0].messages ==>
                      m.id !in seen && exists d :: d in content && m == GetMessage(d))))
  {
    if content != [] {
      var seen := IdsOf(state.roomsDict[roomId].messages);
      var pending := NewMessages(content, seen);
      var ms := GetMessages(pending);
      forall d | d in content && d.id !in seen ensures GetMessage(d) in ms {
        NewMessagesMembers(content, seen, d);
        var i :| 0 <= i < |pending| && pending[i] == d;
        assert ms[i] == GetMessage(d);
      }
      forall m | m in ms ensures m.id !in seen && exists d :: d in content && m == GetMessage(d) {
        var i :| 0 <= i < |ms| && ms[i] == m;
        NewMessagesMembers(content, seen, pending[i]);
        GetMessageFields(pending[i]);
      }
    }
  }

  /** No two messages of a list share an id. */
  predicate UniqueIds(s: seq<Message>) {
    forall i, j :: 0 <= i < j < |s| ==> s[i].id != s[j].id
  }

  /** No two entries of a page share an id. */
  predicate UniqueDtoIds(s: seq<MessageDto>) {
    forall i, j :: 0 <= i < j < |s| ==> s[i].id != s[j].id
  }

  lemma {:induction false} NewMessagesUnique(content: seq<MessageDto>, seen: set<int>)
    requires UniqueDtoIds(content)
    ensures UniqueDtoIds(NewMessages(content, seen))
  {
    if content != [] {
      var rest := content[1..];
      assert UniqueDtoIds(rest) by {
        forall i, j | 0 <= i < j < |rest| ensures rest[i].id != rest[j].id {
          assert rest[i] == content[i + 1] && rest[j] == content[j + 1];
        }
      }
      NewMessagesUnique(rest, seen);
      var tail := NewMessages(rest, seen);
      forall k | 0 <= k < |tail| ensures tail[k].id != content[0].id {
        NewMessagesMembers(rest, seen, tail[k]);
        var i :| 0 <= i < |rest| && rest[i] == tail[k];
        assert content[i + 1] == tail[k];
      }
    }
  }

  /**
   * Deduplication by id: if the room's list and the page are each free of
   * repeated ids, then so is the room's list followed by what `addMessages`
   * carries.
   */
  lemma LoadMessagesNoDuplicates(state: RootState, roomId: int, content: seq<MessageDto>)
    requires content != [] && roomId in state.roomsDict
    requires UniqueIds(state.roomsDict[roomId].messages) && UniqueDtoIds(content)
    ensures UniqueIds(state.roomsDict[roomId].messages + LoadMessages(state, roomId, content)[0].messages)
  {
    var existing := state.roomsDict[roomId].messages;
    var seen := IdsOf(existing);
    var pending := NewMessages(content, seen);
    var added := GetMessages(pending);
    NewMessagesUnique(content, seen);
    var s := existing + added;
    forall i, j | 0 <= i < j < |s| ensures s[i].id != s[j].id {
      if j >= |existing| {
        assert s[j] == added[j - |existing|] == GetMessage(pending[j - |existing|]);
        NewMessagesMembers(content, seen, pending[j - |existing|]);
        if i < |existing| {
          assert s[i] in existing;
        } else {
          assert s[i] == GetMessage(pending[i - |existing|]);
        }
      }
    }
  }

  /**
   * Redelivering a page is harmless: once the room holds every message it held
   * before and every message the first delivery added (in any order, with
   * anything else), loading the same page again adds nothing.
   */
  lemma LoadMessagesRedelivery(state: RootState, later: RootState, roomId: int, content: seq<MessageDto>)
    requires content != [] && roomId in state.roomsDict && roomId in later.roomsDict
    requires var added := LoadMessages(state, roomId, content)[0].messages;
      IdsOf(state.roomsDict[roomId].messages) + IdsOf(added) <= IdsOf(later.roomsDict[roomId].messages)
    ensures LoadMessages(later, roomId, content) == [Commit.AddMessages(roomId, [])]
  {
    var seen := IdsOf(state.roomsDict[roomId].messages);
    var seen2 := IdsOf(later.roomsDict[roomId].messages);
    var pending := NewMessages(content, seen);
    var added := GetMessages(pending);
    forall d | d in content ensures d.id in seen2 {
      if d.id !in seen {
        NewMessagesMembers(content, seen, d);
        var i :| 0 <= i < |pending| && pending[i] == d;
        assert added[i] in added && added[i].id == d.id;
      }
    }
    NewMessagesAllSeen(content, seen2);
  }

  /**
   * Deduplication is only against the room: two entries of one page with the
   * same id, new to the room, are both added.
   */
  lemma LoadMessagesKeepsPageDuplicates(state: RootState, roomId: int, d: MessageDto)
    requires roomId in state.roomsDict && d.id !in IdsOf(state.roomsDict[roomId].messages)
    ensures var r := LoadMessages(state, roomId, [d, d]);
      && r == [Commit.AddMessages(roomId, [GetMessage(d), GetMessage(d)])]
      && !UniqueIds(r[0].messages)
  {
    var seen := IdsOf(state.roomsDict[roomId].messages);
    assert [d, d][1..] == [d];
    assert NewMessages([d], seen) == [d];
    assert NewMessages([d, d], seen) == [d, d];
    assert GetMessages([d, d]) == [GetMessage(d), GetMessage(d)];
    var ms := LoadMessages(state, roomId, [d, d])[0].messages;
    assert ms[0].id == ms[1].id;
  }

  /**
   * `loadMessages` does not check that a page entry belongs to the room: an
   * entry carrying another room's id is added to this room with that id.
   */
  lemma LoadMessagesForeignEntry(state: RootState, roomId: int, d: MessageDto)
    requires roomId in state.roomsDict && d.roomId != roomId
    requires d.id !in IdsOf(state.roomsDict[roomId].messages)
    ensures var r := LoadMessages(state, roomId, [d]);
      && r == [Commit.AddMessages(roomId, [GetMessage(d)])]
      && r[0].messages[0].roomId != r[0].roomId
  {
    var seen := IdsOf(state.roomsDict[roomId].messages);
    assert NewMessages([d], seen) == [d];
    assert GetMessages([d]) == [GetMessage(d)];
  }

  // ---------------------------------------------------------------------------
  // deleteMessage, editMessage
  // ---------------------------------------------------------------------------

  /** The event as a store record, marked deleted. */
  function Tombstone(ev: MessageDto): (r: Message)
    ensures r.deleted == Some(true) && r.id == ev.id && r.roomId == ev.roomId
    ensures r.(deleted := GetMessage(ev).deleted) == GetMessage(ev)
  {
    GetMessage(ev).(deleted := Some(true))
  }

  /**
   * `deleteMessage`: a known message is first replaced by its tombstone;
   * whether or not it is known, the raw event is then committed as well.
   */
  function DeleteMessage(state: RootState, ev: MessageDto): (r: seq<Commit>)
    ensures 1 <= |r| <= 2 && r[|r| - 1] == Commit.DeleteMessageRaw(ev)
  {
    (if MessageExists(state, ev.roomId, ev.id) then [Commit.DeleteMessage(Tombstone(ev))] else [])
    + [Commit.DeleteMessageRaw(ev)]
  }

  /**
   * A known message gets two commits, the tombstone (`getMessage` of the
   * event with `deleted = true`) and then the raw event; an unknown one only
   * the raw event. No other commit is issued.
   */
  lemma DeleteMessageOutcome(state: RootState, ev: MessageDto)
    ensures var r := DeleteMessage(state, ev);
      && r[|r| - 1] == Commit.DeleteMessageRaw(ev)
      && (|r| == 2 <==> MessageExists(state, ev.roomId, ev.id))
      && (|r| == 1 <==> !MessageExists(state, ev.roomId, ev.id))
      && (|r| == 2 ==>
            && r[0].DeleteMessage? && r[0].message.deleted == Some(true)
            && r[0].message.(deleted := GetMessage(ev).deleted) == GetMessage(ev)
            && r[0].message.id == ev.id && r[0].message.roomId == ev.roomId)
      && (forall c :: c in r ==> c.DeleteMessage? || c.DeleteMessageRaw?)
  {
    GetMessageFields(ev);
  }

  /** `editMessage`: only a known message is edited, with the event converted in full. */
  function EditMessage(state: RootState, ev: MessageDto): (r: seq<Commit>)
    ensures |r| <= 1
    ensures forall c :: c in r ==> c.EditMessage? && c.message.id == ev.id
  {
    if MessageExists(state, ev.roomId, ev.id) then [Commit.EditMessage(GetMessage(ev))] else []
  }

  /**
   * An edit commits exactly when the message is known, and then only the
   * event converted in full; it never adds a message.
   */
  lemma EditMessageOutcome(state: RootState, ev: MessageDto)
    ensures var r := EditMessage(state, ev);
      && (r != [] <==> MessageExists(state, ev.roomId, ev.id))
      && (forall c :: c in r ==> c.EditMessage? && c.message.id == ev.id && c.message.roomId == ev.roomId)
      && (r != [] ==> r == [Commit.EditMessage(GetMessage(ev))])
      && (forall c :: c in r ==> !c.AddMessage? && !c.AddMessages?)
  {
    GetMessageFields(ev);
  }

  // ---------------------------------------------------------------------------
  // Presence
  // ---------------------------------------------------------------------------

  /**
   * `addOnlineUser`: an unknown user is added from the event, then the online
   * list is set to a copy of the event's list (a replacement, not a union).
   */
  function AddOnlineUser(state: RootState, userId: int, user: string, sex: SexDto, online: seq<int>): (r: seq<Commit>)
    ensures |r| == (if userId in state.allUsersDict then 1 else 2)
    ensures r[|r| - 1] == Commit.SetOnline(online)
  {
    (if userId !in state.allUsersDict then [Commit.AddUser(ConvertUser(UserDto(userId, user, sex)))] else [])
    + [Commit.SetOnline(online)]
  }

  /**
   * `addUser` is committed exactly when the user is unknown, with the record
   * converted from the event;
   * the last commit sets the online list to exactly the event's list,
   * whatever the list was before.
   */
  lemma AddOnlineUserOutcome(state: RootState, userId: int, user: string, sex: SexDto, online: seq<int>)
    ensures var r := AddOnlineUser(state, userId, user, sex, online);
      && r[|r| - 1] == Commit.SetOnline(online)
      && ((exists c :: c in r && c.AddUser?) <==> userId !in state.allUsersDict)
      && (forall c :: c in r && c.AddUser? ==> c.newUser.id == userId && c.newUser.user == user)
      && (forall c :: c in r && c.AddUser? ==> c.newUser == ConvertUser(UserDto(userId, user, sex)))
      && |r| == (if userId in state.allUsersDict then 1 else 2)
      && AddOnlineUser(state.(online := []), userId, user, sex, online) == r
  {
    var r := AddOnlineUser(state, userId, user, sex, online);
    if userId in state.allUsersDict {
      assert r == [Commit.SetOnline(online)];
    } else {
      assert r[0] in r && r[0].AddUser?;
    }
  }

  /** `removeOnlineUser`: the online list becomes the event's list. */
  function RemoveOnlineUser(online: seq<int>): (r: seq<Commit>)
    ensures |r| == 1 && forall c :: c in r ==> c.SetOnline? && c.online == online
  {
    [Commit.SetOnline(online)]
  }

  /** `setOnline`: the online list becomes a copy of the snapshot's list. */
  function SetOnline(online: seq<int>): (r: seq<Commit>)
    ensures |r| == 1 && forall c :: c in r ==> c.SetOnline? && c.online == online
  {
    [Commit.SetOnline(online)]
  }

  // ---------------------------------------------------------------------------
  // printMessage
  // ---------------------------------------------------------------------------

  /**
   * `printMessage`: a message the room already holds is skipped; otherwise it
   * is added at the first position whose message is later. The room must be
   * known: for an unknown room the handler throws reading its message list.
   */
  function PrintMessage(state: RootState, ev: MessageDto): (r: seq<Commit>)
    requires ev.roomId in state.roomsDict
    ensures |r| <= 1
    ensures forall c :: c in r ==>
      c.AddMessage? && c.message.id == ev.id && c.index <= |state.roomsDict[ev.roomId].messages|
  {
    var messages := state.roomsDict[ev.roomId].messages;
    if HasMessageId(messages, ev.id) then []
    else
      var message := GetMessage(ev);
      [Commit.AddMessage(message, InsertionIndex(messages, message.time))]
  }

  /**
   * A message already in the room produces no commit; any other produces one
   * `addMessage` of the converted event at an index that is within bounds,
   * after every message no later than it and at the first later one, so that
   * an ascending room stays ascending.
   */
  lemma PrintMessageOutcome(state: RootState, ev: MessageDto)
    requires ev.roomId in state.roomsDict
    ensures var messages := state.roomsDict[ev.roomId].messages;
      var r := PrintMessage(state, ev);
      && (r == [] <==> HasMessageId(messages, ev.id))
      && (r != [] ==>
            && |r| == 1 && r[0].AddMessage? && r[0].message == GetMessage(ev)
            && var index := r[0].index;
               && index <= |messages|
               && (forall j :: 0 <= j < index ==> messages[j].time <= ev.time)
               && (index < |messages| ==> messages[index].time > ev.time)
               && (Ascending(messages) ==> Ascending(InsertAt(messages, index, GetMessage(ev)))))
  {
    var messages := state.roomsDict[ev.roomId].messages;
    GetMessageFields(ev);
    InsertionIndexSpec(messages, ev.time);
    if Ascending(messages) {
      InsertKeepsAscending(messages, GetMessage(ev));
    }
  }

  /**
   * A message at time 200 printed into a room holding messages at times 100
   * and 300 goes to index 1, between them.
   */
  lemma PrintMessageBetween(state: RootState, ev: MessageDto, early: Message, late: Message)
    requires ev.roomId in state.roomsDict && state.roomsDict[ev.roomId].messages == [early, late]
    requires early.time == 100 && late.time == 300 && ev.time == 200
    requires early.id != ev.id && late.id != ev.id
    ensures PrintMessage(state, ev) == [Commit.AddMessage(GetMessage(ev), 1)]
    ensures InsertAt([early, late], 1, GetMessage(ev)) == [early, GetMessage(ev), late]
  {
    var messages := [early, late];
    assert !HasMessageId(messages, ev.id) by {
      forall m | m in messages ensures m.id != ev.id {
      }
    }
    GetMessageFields(ev);
    assert messages[1..] == [late];
    assert InsertionIndex([late], 200) == 0;
    assert InsertionIndex(messages, 200) == 1;
  }

  // ---------------------------------------------------------------------------
  // Rooms
  // ---------------------------------------------------------------------------

  /**
   * `deleteRoom`: a known room is deleted; an unknown one is reported as an
   * error and nothing is committed.
   */
  function DeleteRoom(state: RootState, roomId: int): (r: Reaction)
    ensures |r.commits| <= 1 && (r.errorLogged <==> r.commits == [])
  {
    if roomId in state.roomsDict then Reaction([Commit.DeleteRoom(roomId)], false)
    else Reaction([], true)
  }

  /**
   * `leaveUser`: a known room gets the event's member list; an unknown one is
   * reported as an error and nothing is committed.
   */
  function LeaveUser(state: RootState, roomId: int, users: seq<int>): (r: Reaction)
    ensures |r.commits| <= 1 && (r.errorLogged <==> r.commits == [])
  {
    if roomId in state.roomsDict then Reaction([Commit.SetRoomsUsers(roomId, users)], false)
    else Reaction([], true)
  }

  /** The two guarded room handlers commit exactly when the room is known and log an error exactly when not. */
  lemma RoomGuards(state: RootState, roomId: int, users: seq<int>)
    ensures var d := DeleteRoom(state, roomId);
      && (d.commits != [] <==> roomId in state.roomsDict)
      && (d.errorLogged <==> roomId !in state.roomsDict)
      && (forall c :: c in d.commits ==> c == Commit.DeleteRoom(roomId))
    ensures var l := LeaveUser(state, roomId, users);
      && (l.commits != [] <==> roomId in state.roomsDict)
      && (l.errorLogged <==> roomId !in state.roomsDict)
      && (forall c :: c in l.commits ==> c == Commit.SetRoomsUsers(roomId, users))
  {
  }

  /** The room record `addRoom` and `addInvite` build: no messages, history complete. */
  function NewRoom(roomId: int, volume: Volume, notifications: bool, name: string, users: seq<int>): (r: Room)
    ensures r.id == roomId && r.volume == volume && r.notifications == notifications
    ensures r.name == name && r.users == users
    ensures r.messages == [] && r.allLoaded
  {
    Room(roomId, volume, notifications, name, [], true, users)
  }

  /** `addRoom`: commits the new room. */
  function AddRoom(roomId: int, volume: Volume, notifications: bool, name: string, users: seq<int>): (r: seq<Commit>)
    ensures |r| == 1 && r[0].AddRoom? && r[0].room.id == roomId
    ensures r[0].room.messages == [] && r[0].room.allLoaded
  {
    [Commit.AddRoom(NewRoom(roomId, volume, notifications, name, users))]
  }

  /** `addInvite`: the same commit as `addRoom`. */
  function AddInvite(roomId: int, volume: Volume, notifications: bool, name: string, users: seq<int>): (r: seq<Commit>)
    ensures |r| == 1 && r[0].AddRoom? && r[0].room.id == roomId
    ensures r[0].room.messages == [] && r[0].room.allLoaded
  {
    [Commit.AddRoom(NewRoom(roomId, volume, notifications, name, users))]
  }

  /** `inviteUser`: sets the member list without checking that the room is known. */
  function InviteUser(roomId: int, users: seq<int>): (r: seq<Commit>)
    ensures |r| == 1 && forall c :: c in r ==> c.SetRoomsUsers? && c.roomId == roomId && c.users == users
  {
    [Commit.SetRoomsUsers(roomId, users)]
  }

  /**
   * `addRoom` and `addInvite` commit the same single `addRoom`: a room with the
   * event's id, name, volume, notifications and members, no messages and its
   * history marked complete, unlike a room first seen in a snapshot.
   */
  lemma AddRoomOutcome(roomId: int, volume: Volume, notifications: bool, name: string, users: seq<int>, roomsDict: map<int, Room>)
    ensures AddInvite(roomId, volume, notifications, name, users) == AddRoom(roomId, volume, notifications, name, users)
    ensures var r := AddRoom(roomId, volume, notifications, name, users);
      && |r| == 1 && r[0].AddRoom?
      && r[0].room.id == roomId && r[0].room.name == name && r[0].room.volume == volume
      && r[0].room.notifications == notifications && r[0].room.users == users
      && r[0].room.messages == [] && r[0].room.allLoaded
    ensures roomId !in roomsDict ==>
      var snapshot := SnapshotRoom(roomsDict, RoomDto(roomId, name, notifications, users, volume));
      snapshot == AddRoom(roomId, volume, notifications, name, users)[0].room.(allLoaded := false)
  {
  }

  /**
   * `removeOnlineUser` and `setOnline` each commit only `setOnline`, with
   * exactly the given list, whatever the state.
   */
  lemma OnlineReplacement(online: seq<int>)
    ensures RemoveOnlineUser(online) == SetOnline(online) == [Commit.SetOnline(online)]
    ensures forall c :: c in SetOnline(online) ==> c.SetOnline? && c.online == online
  {
  }

  // ---------------------------------------------------------------------------
  // Snapshot appliers
  // ---------------------------------------------------------------------------

  /**
   * The dictionary a `forEach` over `xs` fills with `dict[key(x)] = value(x)`:
   * a later entry overwrites an earlier one with the same key.
   */
  function KeyedBy<T, V>(xs: seq<T>, key: T -> int, value: T -> V): (r: map<int, V>)
    ensures forall i :: 0 <= i < |xs| ==> key(xs[i]) in r
    ensures forall k :: k in r ==> exists i :: 0 <= i < |xs| && key(xs[i]) == k
    decreases |xs|
  {
    if xs == [] then map[]
    else
      var last := xs[|xs| - 1];
      KeyedBy(xs[..|xs| - 1], key, value)[key(last) := value(last)]
  }

  /** The keys of the filled dictionary, as a set. */
  lemma KeyedByKeys<T, V>(xs: seq<T>, key: T -> int, value: T -> V)
    ensures KeyedBy(xs, key, value).Keys == set x | x in xs :: key(x)
  {
    var d := KeyedBy(xs, key, value);
    forall k | k in d ensures k in set x | x in xs :: key(x) {
      var i :| 0 <= i < |xs| && key(xs[i]) == k;
      assert xs[i] in xs;
    }
  }

  /** The keys are exactly the entries' keys, and each key maps to the value of its LAST entry. */
  lemma KeyedByLastWins<T, V>(xs: seq<T>, key: T -> int, value: T -> V)
    ensures KeyedBy(xs, key, value).Keys == set x | x in xs :: key(x)
    ensures forall i :: 0 <= i < |xs| && (forall j :: i < j < |xs| ==> key(xs[j]) != key(xs[i])) ==>
      KeyedBy(xs, key, value)[key(xs[i])] == value(xs[i])
  {
    KeyedByKeys(xs, key, value);
    KeyedByLastValue(xs, key, value);
  }

  /** Entry `i` is the last one with its key. */
  predicate LastOfKey<T>(xs: seq<T>, key: T -> int, i: int) {
    0 <= i < |xs| && forall j :: i < j < |xs| ==> key(xs[j]) != key(xs[i])
  }

  /** Each key maps to the value of its last entry. */
  lemma KeyedByLastValue<T, V>(xs: seq<T>, key: T -> int, value: T -> V)
    ensures forall i :: 0 <= i < |xs| && (forall j :: i < j < |xs| ==> key(xs[j]) != key(xs[i])) ==>
      KeyedBy(xs, key, value)[key(xs[i])] == value(xs[i])
  {
    forall i | 0 <= i < |xs| && (forall j :: i < j < |xs| ==> key(xs[j]) != key(xs[i]))
      ensures KeyedBy(xs, key, value)[key(xs[i])] == value(xs[i])
    {
      assert LastOfKey(xs, key, i);
      KeyedByAt(xs, key, value, i);
    }
  }

  /** The last entry with a key supplies that key's value. */
  lemma {:induction false} KeyedByAt<T, V>(xs: seq<T>, key: T -> int, value: T -> V, i: int)
    requires LastOfKey(xs, key, i)
    ensures key(xs[i]) in KeyedBy(xs, key, value) && KeyedBy(xs, key, value)[key(xs[i])] == value(xs[i])
    decreases |xs|
  {
    var n := |xs| - 1;
    var prefix := xs[..n];
    var before := KeyedBy(prefix, key, value);
    assert KeyedBy(xs, key, value) == before[key(xs[n]) := value(xs[n])];
    if i < n {
      assert key(xs[n]) != key(xs[i]);
      assert prefix[i] == xs[i];
      assert LastOfKey(prefix, key, i) by {
        forall j | i < j < |prefix| ensures key(prefix[j]) != key(prefix[i]) {
          assert prefix[j] == xs[j];
        }
      }
      KeyedByAt(prefix, key, value, i);
    }
  }

  /** `setUsers`: the user dictionary rebuilt from the list, each DTO converted. */
  function UsersDict(users: seq<UserDto>): (r: map<int, User>)
    ensures forall i :: 0 <= i < |users| ==> users[i].userId in r
    ensures forall k :: k in r ==> exists i :: 0 <= i < |users| && users[i].userId == k
  {
    KeyedBy(users, (u: UserDto) => u.userId, ConvertUser)
  }

  /** `setUsers`: one commit of the rebuilt user dictionary, holding every listed id. */
  function SetUsers(users: seq<UserDto>): (r: seq<Commit>)
    ensures |r| == 1 && r[0].SetUsers?
    ensures forall i :: 0 <= i < |users| ==> users[i].userId in r[0].usersDict
  {
    [Commit.SetUsers(UsersDict(users))]
  }

  /**
   * The committed user dictionary has exactly the listed ids as keys, and each
   * id maps to the conversion of the last DTO with that id.
   */
  lemma SetUsersOutcome(users: seq<UserDto>)
    ensures |SetUsers(users)| == 1 && SetUsers(users)[0].SetUsers?
    ensures var dict := SetUsers(users)[0].usersDict;
      && dict.Keys == (set u | u in users :: u.userId)
      && forall i :: 0 <= i < |users| && (forall j :: i < j < |users| ==> users[j].userId != users[i].userId) ==>
           dict[users[i].userId] == ConvertUser(users[i]) && dict[users[i].userId].id == users[i].userId
  {
    KeyedByLastWins(users, (u: UserDto) => u.userId, ConvertUser);
  }

  /**
   * The room record `setRooms` builds from a DTO: every field from the DTO,
   * except that a room already in the store keeps its messages and its
   * history flag, and a new one starts empty with the flag unset.
   */
  function SnapshotRoom(roomsDict: map<int, Room>, dto: RoomDto): (r: Room)
    ensures r.id == dto.roomId && r.name == dto.name && r.volume == dto.volume
    ensures r.notifications == dto.notifications && r.users == dto.users
    ensures dto.roomId in roomsDict ==>
      r.messages == roomsDict[dto.roomId].messages && r.allLoaded == roomsDict[dto.roomId].allLoaded
    ensures dto.roomId !in roomsDict ==> r.messages == [] && !r.allLoaded
  {
    var known := dto.roomId in roomsDict;
    Room(
      id := dto.roomId,
      volume := dto.volume,
      notifications := dto.notifications,
      name := dto.name,
      messages := if known then roomsDict[dto.roomId].messages else [],
      allLoaded := if known then roomsDict[dto.roomId].allLoaded else false,
      users := dto.users)
  }

  /** `setRooms`: the room dictionary rebuilt from the snapshot. */
  function RoomsDict(roomsDict: map<int, Room>, rooms: seq<RoomDto>): (r: map<int, Room>)
    ensures forall i :: 0 <= i < |rooms| ==> rooms[i].roomId in r
    ensures forall k :: k in r ==> exists i :: 0 <= i < |rooms| && rooms[i].roomId == k
  {
    KeyedBy(rooms, (d: RoomDto) => d.roomId, (d: RoomDto) => SnapshotRoom(roomsDict, d))
  }

  /** One more snapshot entry overwrites its id with the room built from it. */
  lemma RoomsDictSnoc(roomsDict: map<int, Room>, rooms: seq<RoomDto>, dto: RoomDto)
    ensures RoomsDict(roomsDict, rooms + [dto]) == RoomsDict(roomsDict, rooms)[dto.roomId := SnapshotRoom(roomsDict, dto)]
  {
    assert (rooms + [dto])[..|rooms|] == rooms;
  }

  /** `setRooms`: one commit of the rebuilt room dictionary, holding every snapshot id. */
  function SetRooms(state: RootState, rooms: seq<RoomDto>): (r: seq<Commit>)
    ensures |r| == 1 && r[0].SetRooms?
    ensures forall i :: 0 <= i < |rooms| ==> rooms[i].roomId in r[0].roomsDict
  {
    [Commit.SetRooms(RoomsDict(state.roomsDict, rooms))]
  }

  /**
   * The committed room dictionary has exactly the snapshot's ids as keys
   * (rooms missing from it are dropped); each id maps to a room whose name,
   * volume, notifications and members come from the last DTO with that id,
   * whose messages and history flag are the existing room's when it existed,
   * and empty and unset when it did not.
   */
  lemma SetRoomsOutcome(state: RootState, rooms: seq<RoomDto>)
    ensures |SetRooms(state, rooms)| == 1 && SetRooms(state, rooms)[0].SetRooms?
    ensures var dict := SetRooms(state, rooms)[0].roomsDict;
      && dict.Keys == (set d | d in rooms :: d.roomId)
      && (forall i :: 0 <= i < |rooms| && (forall j :: i < j < |rooms| ==> rooms[j].roomId != rooms[i].roomId) ==>
            var id := rooms[i].roomId;
            && dict[id].id == id
            && dict[id].name == rooms[i].name && dict[id].volume == rooms[i].volume
            && dict[id].notifications == rooms[i].notifications && dict[id].users == rooms[i].users)
      && (forall id :: id in dict && id in state.roomsDict ==>
            dict[id].messages == state.roomsDict[id].messages && dict[id].allLoaded == state.roomsDict[id].allLoaded)
      && (forall id :: id in dict && id !in state.roomsDict ==> dict[id].messages == [] && !dict[id].allLoaded)
  {
    var key := (d: RoomDto) => d.roomId;
    var value := (d: RoomDto) => SnapshotRoom(state.roomsDict, d);
    KeyedByLastWins(rooms, key, value);
    var dict := RoomsDict(state.roomsDict, rooms);
    forall id | id in dict
      ensures id in state.roomsDict ==>
        dict[id].messages == state.roomsDict[id].messages && dict[id].allLoaded == state.roomsDict[id].allLoaded
      ensures id !in state.roomsDict ==> dict[id].messages == [] && !dict[id].allLoaded
    {
      var i := LastIndexOf(rooms, id);
      assert key(rooms[i]) == id;
    }
  }

  /** The position of the last DTO with a given id. */
  function LastIndexOf(rooms: seq<RoomDto>, id: int): (i: nat)
    requires exists d :: d in rooms && d.roomId == id
    ensures i < |rooms| && rooms[i].roomId == id
    ensures forall j :: i < j < |rooms| ==> rooms[j].roomId != id
  {
    var n := |rooms| - 1;
    if rooms[n].roomId == id then n
    else
      assert exists d :: d in rooms[..n] && d.roomId == id by {
        var d :| d in rooms && d.roomId == id;
        var k :| 0 <= k < |rooms| && rooms[k] == d;
        assert rooms[..n][k] == d;
      }
      LastIndexOf(rooms[..n], id)
  }

  // ---------------------------------------------------------------------------
  // Dispatch
  // ---------------------------------------------------------------------------

  /** The events the handlers process without throwing: those two handlers read the room unguarded. */
  predicate Handles(state: RootState, ev: Event) {
    match ev
    case LoadMessagesEvent(roomId, content) => content != [] ==> roomId in state.roomsDict
    case PrintMessageEvent(m) => m.roomId in state.roomsDict
    case _ => true
  }

  /** Routing an event to the handler registered for its kind. */
  function Dispatch(state: RootState, ev: Event): (r: Reaction)
    requires Handles(state, ev)
    ensures r.errorLogged ==> r.commits == []
  {
    match ev
    case LoadMessagesEvent(roomId, content) => Reaction(LoadMessages(state, roomId, content), false)
    case DeleteMessageEvent(m) => Reaction(DeleteMessage(state, m), false)
    case EditMessageEvent(m) => Reaction(EditMessage(state, m), false)
    case AddOnlineUserEvent(userId, user, sex, online) => Reaction(AddOnlineUser(state, userId, user, sex, online), false)
    case RemoveOnlineUserEvent(online) => Reaction(RemoveOnlineUser(online), false)
    case PrintMessageEvent(m) => Reaction(PrintMessage(state, m), false)
    case DeleteRoomEvent(roomId) => DeleteRoom(state, roomId)
    case LeaveUserEvent(roomId, users) => LeaveUser(state, roomId, users)
    case AddRoomEvent(roomId, volume, notifications, name, users) => Reaction(AddRoom(roomId, volume, notifications, name, users), false)
    case InviteUserEvent(roomId, users) => Reaction(InviteUser(roomId, users), false)
    case AddInviteEvent(roomId, volume, notifications, name, users) => Reaction(AddInvite(roomId, volume, notifications, name, users), false)
  }

  /**
   * A commit that names an existing room or message names one the state
   * holds. `addMessages` is checked by its room argument only, not by the
   * `roomId` its messages carry; an `addMessage` index lies within the room's list and its message is
   * new to the room; the raw `deleteMessage` names a message the state holds.
   * Commits that create (`addRoom`, `addUser`) or replace wholesale
   * (`setUsers`, `setRooms`, `setOnline`) are not constrained.
   */
  predicate Guarded(state: RootState, c: Commit) {
    match c
    case AddMessages(roomId, _) => roomId in state.roomsDict
    case SetAllLoaded(roomId) => roomId in state.roomsDict
    case DeleteMessage(m) => MessageExists(state, m.roomId, m.id)
    case EditMessage(m) => MessageExists(state, m.roomId, m.id)
    case AddMessage(m, index) =>
      m.roomId in state.roomsDict && index <= |state.roomsDict[m.roomId].messages|
      && !HasMessageId(state.roomsDict[m.roomId].messages, m.id)
    case DeleteRoom(roomId) => roomId in state.roomsDict
    case SetRoomsUsers(roomId, _) => roomId in state.roomsDict
    case DeleteMessageRaw(e) => MessageExists(state, e.roomId, e.id)
    case _ => true
  }

  /**
   * A handler names a room or message the state does not hold exactly when it
   * is `inviteUser` or `loadMessages` (with an empty page) for an unknown
   * room, or `deleteMessage` for an unknown message, as far as `Guarded`
   * checks: the messages of an `addMessages` may carry another room's id.
   * Only `deleteRoom` and `leaveUser` log errors, each exactly when its room
   * is unknown, and then commit nothing.
   */
  lemma DispatchGuarded(state: RootState, ev: Event)
    requires Handles(state, ev)
    ensures (forall c :: c in Dispatch(state, ev).commits ==> Guarded(state, c)) <==>
      !(|| ((ev.InviteUserEvent? || ev.LoadMessagesEvent?) && ev.roomId !in state.roomsDict)
        || (ev.DeleteMessageEvent? && !MessageExists(state, ev.message.roomId, ev.message.id)))
    ensures Dispatch(state, ev).errorLogged <==>
      (ev.DeleteRoomEvent? || ev.LeaveUserEvent?) && ev.roomId !in state.roomsDict
    ensures Dispatch(state, ev).errorLogged ==> Dispatch(state, ev).commits == []
  {
    match ev
    case LoadMessagesEvent(roomId, content) =>
      assert Dispatch(state, ev).commits[0] in Dispatch(state, ev).commits;
    case InviteUserEvent(roomId, users) =>
      assert Dispatch(state, ev).commits[0] in Dispatch(state, ev).commits;
    case DeleteMessageEvent(m) =>
      GetMessageFields(m);
      var commits := Dispatch(state, ev).commits;
      assert commits[|commits| - 1] in commits;
    case EditMessageEvent(m) => GetMessageFields(m);
    case PrintMessageEvent(m) => PrintMessageOutcome(state, m);
    case _ =>
  }

  /**
   * `inviteUser` names a room without checking it: for an unknown room it
   * still commits a member list for it.
   */
  lemma InviteUserUnguarded(state: RootState, roomId: int, users: seq<int>)
    requires roomId !in state.roomsDict
    ensures var r := Dispatch(state, InviteUserEvent(roomId, users));
      r.commits == [Commit.SetRoomsUsers(roomId, users)] && !Guarded(state, r.commits[0]) && !r.errorLogged
  {
  }

  /**
   * `loadMessages` with an empty page does not check the room either: for an
   * unknown room it still marks that room's history as fully loaded.
   */
  lemma LoadMessagesEmptyUnguarded(state: RootState, roomId: int)
    requires roomId !in state.roomsDict
    ensures var r := Dispatch(state, LoadMessagesEvent(roomId, []));
      r.commits == [Commit.SetAllLoaded(roomId)] && !Guarded(state, r.commits[0]) && !r.errorLogged
  {
  }

  /**
   * `deleteMessage` always commits the raw event, so for a message the state
   * does not hold it still names that message.
   */
  lemma DeleteMessageRawUnguarded(state: RootState, ev: MessageDto)
    requires !MessageExists(state, ev.roomId, ev.id)
    ensures var r := Dispatch(state, DeleteMessageEvent(ev));
      r.commits == [Commit.DeleteMessageRaw(ev)] && !Guarded(state, r.commits[0]) && !r.errorLogged
  {
  }
}
