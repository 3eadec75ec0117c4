/**
 * The handlers of the chat event handler that work step by step: the ones
 * that fill a dictionary with a `forEach` (`loadMessages`, `setUsers`,
 * `setRooms`) and the one that scans for a position (`printMessage`). Each
 * returns the commits it issues, in order, and is proved to issue exactly
 * what the corresponding function of Reconciliation describes. The other
 * handlers contain no loop and are those functions.
 */
module ChannelsHandler {
  import opened Model
  import opened Conversions
  import opened Ordering
  import R = Reconciliation

  /** `loadMessages`: builds the room's id-presence index, then filters and converts the page. */
  method LoadMessages(state: RootState, roomId: int, content: seq<MessageDto>) returns (commits: seq<Commit>)
    requires content != [] ==> roomId in state.roomsDict
    ensures commits == R.LoadMessages(state, roomId, content)
  {
    if |content| > 0 {
      var oldMessages := state.roomsDict[roomId].messages;
      var seen: set<int> := {};
      var i := 0;
      while i < |oldMessages|
        invariant i <= |oldMessages|
        invariant seen == R.IdsOf(oldMessages[..i])
      {
        R.IdsOfSnoc(oldMessages[..i], oldMessages[i]);
        assert oldMessages[..i + 1] == oldMessages[..i] + [oldMessages[i]];
        seen := seen + {oldMessages[i].id};
        i := i + 1;
      }
      assert oldMessages[..i] == oldMessages;
      var newMessages := R.NewMessages(content, seen);
      var messages := R.GetMessages(newMessages);
      commits := [Commit.AddMessages(roomId, messages)];
    } else {
      commits := [Commit.SetAllLoaded(roomId)];
    }
  }

  /** `printMessage`: skips a message the room holds, else scans for its position. */
  method PrintMessage(state: RootState, inMessage: MessageDto) returns (commits: seq<Commit>)
    requires inMessage.roomId in state.roomsDict
    ensures commits == R.PrintMessage(state, inMessage)
  {
    var r := state.roomsDict[inMessage.roomId];
    if R.HasMessageId(r.messages, inMessage.id) {
      commits := [];
    } else {
      var message := GetMessage(inMessage);
      var room := state.roomsDict[message.roomId];
      var index := FindInsertIndex(room.messages, message.time);
      commits := [Commit.AddMessage(message, index)];
    }
  }

  /** `setUsers`: fills the user dictionary entry by entry, then commits it. */
  method SetUsers(users: seq<UserDto>) returns (commits: seq<Commit>)
    ensures commits == R.SetUsers(users)
  {
    var um: map<int, User> := map[];
    var i := 0;
    while i < |users|
      invariant i <= |users|
      invariant um == R.UsersDict(users[..i])
    {
      assert users[..i + 1][..i] == users[..i];
      um := um[users[i].userId := ConvertUser(users[i])];
      i := i + 1;
    }
    assert users[..i] == users;
    commits := [Commit.SetUsers(um)];
  }

  /**
   * `setRooms`: fills a fresh room dictionary from the snapshot, carrying
   * over the messages and history flag of rooms the store already holds.
   */
  method SetRooms(state: RootState, rooms: seq<RoomDto>) returns (commits: seq<Commit>)
    ensures commits == R.SetRooms(state, rooms)
  {
    var storeRooms: map<int, Room> := map[];
    var roomsDict := state.roomsDict;
    var i := 0;
    while i < |rooms|
      invariant i <= |rooms|
      invariant storeRooms == R.RoomsDict(roomsDict, rooms[..i])
    {
      var newRoom := rooms[i];
      var known := newRoom.roomId in roomsDict;
      var rm := Room(
        id := newRoom.roomId,
        volume := newRoom.volume,
        notifications := newRoom.notifications,
        name := newRoom.name,
        messages := if known then roomsDict[newRoom.roomId].messages else [],
        allLoaded := if known then roomsDict[newRoom.roomId].allLoaded else false,
        users := newRoom.users);
      assert rm == R.SnapshotRoom(roomsDict, newRoom);
      R.RoomsDictSnoc(roomsDict, rooms[..i], newRoom);
      assert rooms[..i + 1] == rooms[..i] + [newRoom];
      storeRooms := storeRooms[rm.id := rm];
      i := i + 1;
    }
    assert rooms[..i] == rooms;
    commits := [Commit.SetRooms(storeRooms)];
  }
}
