/**
 * The values the chat client works with: the decoded server payloads (DTOs),
 * the normalised store records built from them, the store state the
 * handlers read, the events they receive and the store mutations they commit.
 */
module Model {

  /** A JavaScript value that may be `null` or `undefined` (`None`). */
  datatype Option<T> = None | Some(value: T)

  /** The sex of a user, as the server sends it. */
  datatype SexDto = Male | Female | Secret

  /** The sex of a user, as the store keeps it. */
  datatype Sex = Male | Female | Secret

  /** A user as the server describes it. */
  datatype UserDto = UserDto(userId: int, user: string, sex: SexDto)

  /** A user record of the store's user dictionary. */
  datatype User = User(user: string, id: int, sex: Sex)

  /** The attachments of a message; only ever copied, so their inner structure is left opaque. */
  type Files = seq<int>

  /** A message as the server sends it (new, edited or deleted). */
  datatype MessageDto = MessageDto(
    id: int,
    time: int,
    files: Option<Files>,
    content: Option<string>,
    symbol: Option<string>,
    edited: Option<int>,
    roomId: int,
    userId: int,
    giphy: Option<string>,
    deleted: Option<bool>)

  /** A message record of a room's message list. */
  datatype Message = Message(
    id: int,
    time: int,
    files: Option<Files>,
    content: Option<string>,
    symbol: Option<string>,
    edited: Option<int>,
    roomId: int,
    userId: int,
    giphy: Option<string>,
    deleted: Option<bool>)

  /** The sound volume of a room: a floating-point number that is only copied. */
  type Volume = real

  /** A room as the server describes it in a room snapshot. */
  datatype RoomDto = RoomDto(roomId: int, name: string, notifications: bool, users: seq<int>, volume: Volume)

  /** A room record of the store's room dictionary. */
  datatype Room = Room(
    id: int,
    volume: Volume,
    notifications: bool,
    name: string,
    messages: seq<Message>,
    allLoaded: bool,
    users: seq<int>)

  /** The part of the store state the handlers read. */
  datatype RootState = RootState(roomsDict: map<int, Room>, allUsersDict: map<int, User>, online: seq<int>)

  /** The store mutations the handlers commit, one constructor per mutation and payload. */
  datatype Commit =
    | AddMessages(roomId: int, messages: seq<Message>)
    | SetAllLoaded(roomId: int)
      /** 'deleteMessage' with a rebuilt message record as payload. */
    | DeleteMessage(message: Message)
      /** 'deleteMessage' with the raw server event as payload. */
    | DeleteMessageRaw(event: MessageDto)
    | EditMessage(message: Message)
    | AddMessage(message: Message, index: nat)
    | AddUser(newUser: User)
    | SetOnline(online: seq<int>)
    | SetUsers(usersDict: map<int, User>)
    | SetRooms(roomsDict: map<int, Room>)
    | AddRoom(room: Room)
    | DeleteRoom(roomId: int)
    | SetRoomsUsers(roomId: int, users: seq<int>)

  /** What one event leaves behind: the commits, in order, and whether an error was logged. */
  datatype Reaction = Reaction(commits: seq<Commit>, errorLogged: bool)

  /** The server events the chat handlers are registered for. */
  datatype Event =
    | LoadMessagesEvent(roomId: int, content: seq<MessageDto>)
    | DeleteMessageEvent(message: MessageDto)
    | EditMessageEvent(message: MessageDto)
      /** `online` is the event's `content` field: the ids of the users now online. */
    | AddOnlineUserEvent(userId: int, user: string, sex: SexDto, online: seq<int>)
    | RemoveOnlineUserEvent(online: seq<int>)
    | PrintMessageEvent(message: MessageDto)
    | DeleteRoomEvent(roomId: int)
    | LeaveUserEvent(roomId: int, users: seq<int>)
    | AddRoomEvent(roomId: int, volume: Volume, notifications: bool, name: string, users: seq<int>)
    | InviteUserEvent(roomId: int, users: seq<int>)
    | AddInviteEvent(roomId: int, volume: Volume, notifications: bool, name: string, users: seq<int>)
}
