# Chat event reconciliation (pychat front end), modelled in Dafny

This project models the chat handlers of pychat's front end (`ChannelsHandler`).
Each handler takes one decoded server event and reads the current store state.
The state is the room dictionary `roomsDict`, the user dictionary `allUsersDict` and the online list.
The handler then issues a sequence of store `commit(...)` mutations.
The handlers are `loadMessages`, `deleteMessage`, `editMessage`, `addOnlineUser`, `removeOnlineUser`, `printMessage`, `deleteRoom`, `leaveUser`, `addRoom`, `inviteUser` and `addInvite`.
The snapshot appliers are `setUsers`, `setRooms` and `setOnline`.
The record builders are `getMessage`, `convertUser` and `convertSex`.

A handler reads the state before its first commit and never after it.
So each handler is modelled on `(state, event)` and yields the list of commits it issues, in order (`Model.Commit`).
The store's mutations are not modelled: a commit is a command, not its effect.

Modules:

- `Model` (Model.dfy): DTOs, store records, the store state, events, commits, and `Reaction` (commits plus "an error was logged").
- `Conversions` (Conversions.dfy): `getMessage`, with JavaScript's `x || null` written out per field, plus `convertUser` and `convertSex`, each with its inverse.
- `Ordering` (Ordering.dfy): the index scan of `printMessage`, as a loop method and as a recursive function, with its properties.
- `Reconciliation` (Reconciliation.dfy): one function per handler, the dispatch `match`, and the lemmas.
- `ChannelsHandler` (ChannelsHandler.dfy): the handlers that loop, as methods. `loadMessages`, `setUsers` and `setRooms` use a `forEach` that fills a dictionary, and `printMessage` scans for an index. Each method is proved to commit exactly what its `Reconciliation` function says.

The model follows the code as written, including where a reader might expect otherwise:

- `addOnlineUser` sets the online list to the event's list. It replaces the list rather than taking a union (`AddOnlineUserOutcome`).
- `inviteUser` does not check that the room exists (`InviteUserUnguarded`).
- `loadMessages` with an empty page does not check the room either: it marks even an unknown room as fully loaded (`LoadMessagesEmptyUnguarded`).
- `loadMessages` does not check that a page entry belongs to the room. An entry carrying another room's id is added to this room, keeping that id (`LoadMessagesForeignEntry`).
- `loadMessages` drops only the entries whose id the room already holds. Two entries of one page with the same id are both added (`LoadMessagesKeepsPageDuplicates`).
- `deleteMessage` always issues the raw `deleteMessage(event)` commit, after the tombstone if the message is known. So it names the message even when the state does not hold it (`DeleteMessageRawUnguarded`).
- Rooms from `addRoom`/`addInvite` start with `allLoaded = true`. Rooms first seen in `setRooms` start with `false` (`AddRoomOutcome`).

## Model

| member | source | states |
|---|---|---|
| `Reconciliation.HasMessageId` | fe/src/utils/ChannelsHandler.ts:75 | The `find` by id succeeds iff some position of the list holds a message with that id. |
| `Reconciliation.MessageExists` | fe/src/utils/ChannelsHandler.ts:43-44 | `getMessageById` finds a message only in a room the state holds. `DeleteMessageOutcome` and `EditMessageOutcome` characterise its use. |
| `Reconciliation.IdsOf` | fe/src/utils/ChannelsHandler.ts:31-34 | The `oldMessagesDist` index holds every message's id, and every id in it belongs to some message. |
| `Reconciliation.LoadMessages` | fe/src/utils/ChannelsHandler.ts:28-40 | Exactly one commit, for the event's room. It is `setAllLoaded` iff the page is empty, and otherwise an `addMessages` carrying no more messages than the page has. Only a non-empty page needs the room to exist. |
| `Reconciliation.NewMessages` | fe/src/utils/ChannelsHandler.ts:35 | The filter keeps at most the page's entries, and each kept entry is from the page and has an id the room does not hold. |
| `Reconciliation.GetMessages` | fe/src/utils/ChannelsHandler.ts:36 | The mapped list has the length of its input, and position `i` holds `getMessage` of entry `i`. |
| `ChannelsHandler.LoadMessages` | fe/src/utils/ChannelsHandler.ts:28-40 | The loop builds the id-presence index of the room's messages. The method then commits exactly `Reconciliation.LoadMessages`. |
| `Reconciliation.LoadMessagesOutcome` | fe/src/utils/ChannelsHandler.ts:28-40 | One commit. It is `setAllLoaded(roomId)` iff the page is empty. Otherwise it is an `addMessages` for that room holding the converted page entries whose id the room lacks: all of them, and nothing else. |
| `Reconciliation.NewMessagesMembers` | fe/src/utils/ChannelsHandler.ts:35 | An entry survives the filter iff it is in the page and its id is not in the room. |
| `Reconciliation.NewMessagesAppend` | fe/src/utils/ChannelsHandler.ts:35 | The filter distributes over concatenation, so the entries keep the page's order. |
| `Reconciliation.NewMessagesAllSeen` | fe/src/utils/ChannelsHandler.ts:35 | A page whose ids the room all holds adds nothing. |
| `Reconciliation.NewMessagesUnique` | fe/src/utils/ChannelsHandler.ts:35 | Filtering keeps a page free of repeated ids. |
| `Reconciliation.LoadMessagesNoDuplicates` | fe/src/utils/ChannelsHandler.ts:29-37 | If the room's list and the page each have unique ids, so does the room's list followed by the added messages. |
| `Reconciliation.LoadMessagesRedelivery` | fe/src/utils/ChannelsHandler.ts:29-37 | Suppose the room later holds every id it held before plus every id that was added. Then the same page adds nothing. |
| `Reconciliation.LoadMessagesKeepsPageDuplicates` | fe/src/utils/ChannelsHandler.ts:31-36 | A page holding one entry twice, with an id the room lacks, adds it twice. The added list then repeats an id. |
| `Reconciliation.Tombstone` | fe/src/utils/ChannelsHandler.ts:46-47 | The converted event with `deleted = true`, and otherwise equal to `getMessage(event)`. `DeleteMessageOutcome` characterises its use. |
| `Reconciliation.LoadMessagesForeignEntry` | fe/src/utils/ChannelsHandler.ts:35-37 | A page entry new to the room but carrying another room's id is committed in this room's `addMessages` with its own `roomId`. |
| `Reconciliation.DeleteMessage` | fe/src/utils/ChannelsHandler.ts:42-53 | One or two commits, and the last is always the raw event. |
| `Reconciliation.DeleteMessageOutcome` | fe/src/utils/ChannelsHandler.ts:42-53 | The last commit is the raw event. There are two commits iff the message exists. The first is then `getMessage(event)` with `deleted = true`. No other commit is issued. |
| `Reconciliation.EditMessage` | fe/src/utils/ChannelsHandler.ts:54-62 | At most one commit, an `editMessage` of a message with the event's id. |
| `Reconciliation.EditMessageOutcome` | fe/src/utils/ChannelsHandler.ts:54-62 | It commits iff `(roomId, id)` exists. The commit is then exactly `editMessage(getMessage(event))`. It never adds a message. |
| `Reconciliation.AddOnlineUser` | fe/src/utils/ChannelsHandler.ts:63-69 | One commit for a known user and two for an unknown one. The last sets the online list to the event's list. |
| `Reconciliation.AddOnlineUserOutcome` | fe/src/utils/ChannelsHandler.ts:63-69 | `addUser` is issued iff the user is unknown. Its record is exactly `convertUser` of the event's id, name and sex. The last commit sets the online list to exactly the event's list, whatever the old list was. |
| `Reconciliation.RemoveOnlineUser` | fe/src/utils/ChannelsHandler.ts:70-72 | One commit, a `setOnline` of the event's list. |
| `Reconciliation.SetOnline` | fe/src/utils/ChannelsHandler.ts:206-208 | One commit, a `setOnline` of the snapshot's list. |
| `Reconciliation.OnlineReplacement` | fe/src/utils/ChannelsHandler.ts:70-72 | `removeOnlineUser` (here) and `setOnline` (lines 206-208) commit the same thing: only `setOnline`, with the given list. |
| `Reconciliation.PrintMessage` | fe/src/utils/ChannelsHandler.ts:73-90 | At most one commit, an `addMessage` of a message with the event's id at an index within the room's list. The room must exist. |
| `ChannelsHandler.PrintMessage` | fe/src/utils/ChannelsHandler.ts:73-90 | Skips a message whose id the room holds. Otherwise it scans for the index. It commits exactly `Reconciliation.PrintMessage`. |
| `Reconciliation.PrintMessageOutcome` | fe/src/utils/ChannelsHandler.ts:73-90 | No commit iff the id is already in the room. Otherwise one `addMessage` of the converted event at index `i`, where `0 <= i <= |messages|`, every earlier message has `time <=` the new time, and the message at `i` is later. Inserting there keeps an ascending list ascending. |
| `Reconciliation.PrintMessageBetween` | fe/src/utils/ChannelsHandler.ts:81-87 | A message at time 200 printed into a room whose messages are at times 100 and 300 goes to index 1. |
| `Ordering.FindInsertIndex` | fe/src/utils/ChannelsHandler.ts:81-86 | The loop stops at the first message later than the new one, or at the end. The result is within bounds, everything before it is no later, and it equals `InsertionIndex`. |
| `Ordering.InsertionIndex` | fe/src/utils/ChannelsHandler.ts:81-86 | The recursive definition of the scan's result, never past the end of the list. |
| `Ordering.InsertionIndexSpec` | fe/src/utils/ChannelsHandler.ts:81-86 | Every message before the index is no later than the new time. The one at the index, if any, is later. |
| `Ordering.InsertionIndexUnique` | fe/src/utils/ChannelsHandler.ts:81-86 | Those two facts fix the index: no other position satisfies them. |
| `Ordering.InsertKeepsAscending` | fe/src/utils/ChannelsHandler.ts:81-87 | Inserting at the index keeps an ascending list ascending. Messages with an equal time stay before the new one. |
| `Ordering.InsertBetweenKeepsAscending` | fe/src/utils/ChannelsHandler.ts:87 | Inserting between the no-later prefix and a later message keeps an ascending list ascending. |
| `Ordering.InsertionIndexCountsEarlier` | fe/src/utils/ChannelsHandler.ts:81-86 | In an ascending list, the index is the number of messages no later than the new one. |
| `Reconciliation.DeleteRoom` | fe/src/utils/ChannelsHandler.ts:91-97 | At most one commit. An error is logged iff nothing is committed. |
| `Reconciliation.LeaveUser` | fe/src/utils/ChannelsHandler.ts:98-108 | At most one commit. An error is logged iff nothing is committed. |
| `Reconciliation.RoomGuards` | fe/src/utils/ChannelsHandler.ts:91-108 | `deleteRoom` and `leaveUser` commit iff the room exists, and only the one expected commit. They log an error iff it does not. |
| `Reconciliation.Dispatch` | fe/src/utils/ChannelsHandler.ts:27-136 | Routes each event to its handler. Whenever an error is logged, nothing is committed. |
| `Reconciliation.DispatchGuarded` | fe/src/utils/ChannelsHandler.ts:28-135 | Every commit names only rooms and messages the state holds, including `setAllLoaded` and the raw `deleteMessage`, and a new message only at an in-bounds index. An `addMessages` is checked by its room argument only, not by its messages' own `roomId` (`LoadMessagesForeignEntry`). This holds iff the event is not `inviteUser` or `loadMessages` for an unknown room, and not `deleteMessage` for an unknown message. Only `deleteRoom`/`leaveUser` log errors, exactly for an unknown room, and then commit nothing. |
| `Reconciliation.InviteUserUnguarded` | fe/src/utils/ChannelsHandler.ts:121-123 | `inviteUser` commits a member list even for an unknown room, and logs nothing. |
| `Reconciliation.LoadMessagesEmptyUnguarded` | fe/src/utils/ChannelsHandler.ts:38-40 | An empty page for an unknown room still commits `setAllLoaded` for it, and logs nothing. |
| `Reconciliation.DeleteMessageRawUnguarded` | fe/src/utils/ChannelsHandler.ts:43-52 | A delete of a message the state does not hold still commits the raw event naming it, and logs nothing. |
| `Reconciliation.NewRoom` | fe/src/utils/ChannelsHandler.ts:110-118 | The room literal of `addRoom` and `addInvite`: the event's id, volume, notifications, name and members, no messages, `allLoaded = true`. `AddRoomOutcome` characterises its use. |
| `Reconciliation.InviteUser` | fe/src/utils/ChannelsHandler.ts:121-123 | One commit, a `setRoomsUsers` of the event's room and members. |
| `Reconciliation.AddRoom` | fe/src/utils/ChannelsHandler.ts:109-120 | One `addRoom` of a room with the event's id, no messages and `allLoaded = true`. |
| `Reconciliation.AddInvite` | fe/src/utils/ChannelsHandler.ts:124-135 | One `addRoom` of a room with the event's id, no messages and `allLoaded = true`. |
| `Reconciliation.AddRoomOutcome` | fe/src/utils/ChannelsHandler.ts:109-135 | `addRoom` and `addInvite` commit the same room: the event's fields, no messages, `allLoaded = true`. A snapshot's new room differs only in `allLoaded = false`. |
| `Reconciliation.KeyedBy` | fe/src/utils/ChannelsHandler.ts:152-154 | Every entry's key is in the filled dictionary, and every key there comes from some entry. |
| `Reconciliation.KeyedByLastWins` | fe/src/utils/ChannelsHandler.ts:152-154 | A dictionary filled by `forEach` has exactly the entries' keys. Each key holds the value of its last entry. |
| `Reconciliation.UsersDict` | fe/src/utils/ChannelsHandler.ts:151-154 | The `um` dictionary holds every listed id, and only listed ids. `SetUsersOutcome` gives its values. |
| `Reconciliation.SetUsers` | fe/src/utils/ChannelsHandler.ts:149-156 | One `setUsers` commit whose dictionary holds every listed id. |
| `ChannelsHandler.SetUsers` | fe/src/utils/ChannelsHandler.ts:149-156 | The loop fills the dictionary. The method commits exactly `Reconciliation.SetUsers`. |
| `Reconciliation.SetUsersOutcome` | fe/src/utils/ChannelsHandler.ts:149-156 | One `setUsers`. Its keys are exactly the listed ids. Each id maps to the conversion of the last DTO with that id. |
| `Reconciliation.SnapshotRoom` | fe/src/utils/ChannelsHandler.ts:191-200 | Id, name, volume, notifications and members come from the DTO. A known room's messages and `allLoaded` are kept. A new room gets `[]` and `false`. |
| `Reconciliation.RoomsDict` | fe/src/utils/ChannelsHandler.ts:188-202 | The `storeRooms` dictionary holds every snapshot id, and only snapshot ids. `SetRoomsOutcome` gives its values. |
| `Reconciliation.SetRooms` | fe/src/utils/ChannelsHandler.ts:186-204 | One `setRooms` commit whose dictionary holds every snapshot id. |
| `ChannelsHandler.SetRooms` | fe/src/utils/ChannelsHandler.ts:186-204 | The loop fills the dictionary from the snapshot and the old rooms. The method commits exactly `Reconciliation.SetRooms`. |
| `Reconciliation.SetRoomsOutcome` | fe/src/utils/ChannelsHandler.ts:186-204 | The keys are exactly the snapshot's ids. Name, volume, notifications and members come from the last DTO with each id. An existing room keeps its messages and `allLoaded`. A new one gets `[]` and `false`. |
| `Conversions.ConvertSex` | fe/src/utils/ChannelsHandler.ts:158-160 | The server's name of the result is the input. |
| `Conversions.ConvertSexBijective` | fe/src/utils/ChannelsHandler.ts:158-160 | `convertSex` is a bijection. Its inverse is the server name. |
| `Conversions.ConvertUser` | fe/src/utils/ChannelsHandler.ts:162-168 | The record's id is the DTO's `userId` and its name the DTO's name. Mapping it back gives the DTO. |
| `Conversions.ConvertUserBijective` | fe/src/utils/ChannelsHandler.ts:162-168 | `convertUser` keys the record by `userId`. It is a bijection between DTOs and records. |
| `Conversions.OrNull` | fe/src/utils/ChannelsHandler.ts:174-181 | `v \|\| null` is null iff `v` is absent or falsy. Otherwise it is `v`. |
| `Conversions.GetMessage` | fe/src/utils/ChannelsHandler.ts:170-183 | Id, time, room, author and files are copied. The result is normalised. |
| `Conversions.GetMessageFields` | fe/src/utils/ChannelsHandler.ts:170-183 | Copies id, time, room, author and files. Keeps exactly the truthy optional fields, each with the event's value: `""`, `0` and `false` become null. The result is normalised. |
| `Conversions.GetMessageRoundTrip` | fe/src/utils/ChannelsHandler.ts:170-183 | A record survives the trip to a payload and back through `getMessage` iff it is normalised. |
| `Conversions.GetMessageIdempotent` | fe/src/utils/ChannelsHandler.ts:170-183 | Applying `getMessage` to its own output changes nothing. |

## Left out

- The store's mutation implementations (`addMessages`, `addMessage`, `setRooms`, ...) are not part of this model. Commits are emitted commands, so no lemma claims, for example, that `addMessages` sorts.
- `getMessageById` lives in a utils file that is not part of this model. It is modelled as "the room is known and some message of it has that id". For an unknown room this counts as "not found".
- Logger calls: only the `logger.error` of `deleteRoom`/`leaveUser` is kept, as `Reaction.errorLogged`. The informational `logger.log`/`logger.debug` calls are left out.
- The base-class dispatch by handler name, the `Api` object and the store wiring are not shown. Dispatch is modelled as a `match` on an event datatype. Unknown event names are not modelled.
- `loadMessages` reads the room's messages without an existence check. `printMessage` checks the room before its skip test but not before its index scan. For an unknown room either handler throws. They therefore carry a `requires` that the room exists: for `printMessage` always, for `loadMessages` only for a non-empty page.
- The crash itself (a JavaScript `TypeError`) is not modelled.
- `volume` is a floating-point number that is only copied. It is modelled as a `real`, with no rounding.
- The `files` payload is only copied. Its structure is opaque here: a list of ids.
- Sex values: the enum's declaration is not part of this model. It is modelled as three members named alike on both sides.
- `edited`: the message types file is not part of this model. `edited` is taken to be a number (an edit count), so `|| null` turns `0` into null. If it is a boolean, `false` would be the falsy value instead.
- JavaScript `NaN` as a falsy number is not modelled. Numbers are integers.
- The spread copies `[...content]`, `[...online]` and `[...users]` are modelled as the same value: sequences have no identity.
