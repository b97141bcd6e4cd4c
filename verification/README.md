# Pixel-art room server, modelled in Dafny

A model of the room engine of the pixel-art server (`server.js`): clients
create named rooms, join them, paint pixels on the room's shared 15×15
board and ask for the board again; every accepted pixel update broadcasts
the whole board to the room and keeps the room alive for another
1 800 000 ms, and a room whose timer runs out is deleted even while
sessions are still in it.

The server's state is one immutable `Registry.State`:

- `boards`: the `roomBoards` table, room name to board;
- `deadlines`: the `roomTimers` table, with each `setTimeout` handle
  replaced by the absolute time at which it fires;
- `member`: the one room each socket has joined, if any;
- `now`: an abstract millisecond clock.

Each socket handler is a pure function in `Dispatcher` from a state to a
`Step`: the next state plus the list of emitted events, each addressed
either to the requesting socket (`ToSession`) or to a whole room
(`ToRoom`). `Dispatcher.Receives` says which session gets which message,
using the memberships after the handler ran. Time passing is
`Dispatcher.Tick`: due rooms are deleted, all at once (`Registry.Expire`),
which `Registry.FireTimers` shows equal to the timers firing one after
another. `Runs.Run` folds any sequence of events and clock advances; the
lemmas in `Runs` hold across such sequences.

Files: `canvas.dfy` (module `Canvas`, the board), `registry.dfy` (module
`Registry`, the two tables, memberships and timers), `dispatcher.dfy`
(module `Dispatcher`, the handlers and outbound events), `runs.dfy` (module
`Runs`, event sequences and the properties across them).

Behaviour followed where the code differs from what its names and comments suggest:

- `createRoom` checks only that the name has no board: the empty name and
  `index.html` can be created, but such rooms can never be joined or asked
  for their board (`Runs.UnjoinableRoomsCanBeCreated`).
- `boardUpdateFromServer` always emits to the whole room, sender included,
  so `requestUpdate` also broadcasts to the whole room rather than answering
  the requester only, and a successful join sends the board to every member.
- A pixel update is accepted from any socket, whether or not it has joined
  that room; the sender gets the broadcast only when it is a member.
- The comment above the pixel write promises a bounds check that the code
  does not make: only the existence of the board is checked. The model
  requires the write to hit an existing cell (see Left out).

## Model

| member | source | states |
|---|---|---|
| Canvas.Blank | server.js:95-108 | a new board is a 15×15 grid whose every cell is `#23272a` |
| Canvas.BlankIsUnique | server.js:95-108 | the 15×15 grid filled with `#23272a` is a single board: any board with those two properties is `Blank()` |
| Canvas.NewBoard | server.js:95-108 | the two nested allocation and painting loops produce a 15×15 grid whose every cell is `#23272a`, which is exactly the board `createRoom` installs (`Blank()`) |
| Canvas.SetCell | server.js:157 | writing `board[x][y]` on an existing cell keeps every row's length, puts the colour in (x, y) and leaves every other cell as it was |
| Canvas.SetCellKeepsGrid | server.js:157 | an in-range write hits an existing cell and the board stays a 15×15 grid |
| Canvas.LastWriteWins | server.js:157 | two writes to the same cell leave the second colour, as if the first had not happened |
| Registry.Initial | server.js:20-23 | the server starts with both tables empty, no memberships, and in the state invariant |
| Registry.DeleteRoom | server.js:200-205 | deletion removes the name from both tables, keeps every other entry, memberships and the clock, and preserves the state invariant |
| Registry.DeleteRoomIdempotent | server.js:200-205 | deleting a room twice gives the same state as deleting it once |
| Registry.StartRoomTimer | server.js:207-211 | on a room with no pending deletion, schedules one exactly one window (1 800 000 ms) from now and touches no other room's deadline |
| Registry.RefreshRoomTimer | server.js:213-222 | after a refresh the room has exactly one deadline, one window from now, whether or not it had one; other rooms' deadlines are unchanged |
| Registry.Expire | server.js:200-211 | advancing the clock to t deletes from both tables exactly the rooms whose deadline is at most t, keeps all memberships, and preserves the state invariant |
| Registry.FireTimers | server.js:200-211 | firing the due timers one at a time, each calling the room deletion, ends in the same state as deleting all due rooms at once |
| Dispatcher.CreateRoom | server.js:91-121 | a name without a board gets a blank 15×15 board and a deadline one window away, other rooms and memberships unchanged, and only the requester gets `createRoomSuccess` with its own data; an existing name changes nothing and only the requester gets `createRoomError` with its own data; the invariant is preserved |
| Dispatcher.JoinRoom | server.js:123-147 | succeeds exactly when the name has a board, is not `index.html` and is non-empty: then the session is in that room only, other memberships are unchanged, and the room gets `newUserJoin` then the board; otherwise nothing changes and only the requester gets `joinRoomError` naming the room; boards and deadlines never change |
| Dispatcher.PixelUpdate | server.js:149-169 | on a room with a board: only cell (x, y) of that board changes, to the colour, other boards are unchanged, the room's deadline becomes now plus one window, other deadlines are unchanged, and the room gets the new board; on a room without a board nothing changes and only the sender gets `bootToHome`; the invariant is preserved |
| Dispatcher.RequestUpdate | server.js:171-177 | never changes the state; emits the board to the whole room when the name has a board, is not `index.html` and is non-empty, and emits nothing otherwise |
| Dispatcher.Tick | server.js:207-211 | when the clock reaches t, the rooms whose deadline is at most t disappear from both tables, the others keep their boards and deadlines, memberships stay, nothing is emitted |
| Runs.Apply | server.js:88-179 | every handler and every clock advance, for a pixel update whose (x, y) lies on the 15×15 grid, keeps the tables in sync, no deadline overdue or more than a window ahead, all boards 15×15, and never moves the clock back |
| Runs.Run | server.js:88-222 | any sequence of events and clock advances whose pixel updates all name a cell of the 15×15 grid, from a valid state, ends in a valid state: the board and timer tables have the same rooms and every board is 15×15 |
| Runs.OnlyPixelUpdatesExtendLife | server.js:163-164 | an input other than a pixel update on room n leaves n's deadline unchanged if n survives it |
| Runs.PixelUpdateExtendsLife | server.js:163-164 | an accepted pixel update sets its room's deadline to now plus one window, never earlier than before |
| Runs.UntouchedRoomKeepsDeadline | server.js:207-222 | across any run with no creation of n and no pixel update on n, room n either keeps its original deadline or is gone from both tables |
| Runs.DeletedRoomStaysDeleted | server.js:150-168 | a deleted room stays absent from both tables until a creation names it again; pixel updates on it create nothing |
| Runs.IdleRoomIsEvicted | server.js:207-211 | once the clock reaches a room's deadline and nothing painted or recreated it meanwhile (joins and board requests do not count), the room is gone |
| Runs.ExpiredRoomBootsMembers | server.js:166-168 | a room is deleted at its deadline even with a member; the member stays recorded in it, and its next pixel update changes nothing and only sends it `bootToHome` |
| Runs.JoinLeavesPreviousRoom | server.js:130-134 | after joining room b a session is in b, and no broadcast to another room reaches it |
| Runs.LeftRoomStaysLeft | server.js:130-134 | a session outside room a stays outside it across any run in which it does not itself join a, so no later broadcast to a reaches it |
| Runs.JoinerReceivesBoard | server.js:134-141 | a joining session receives `newUserJoin` and the room's current board |
| Runs.FailedJoinReachesOnlyRequester | server.js:143-146 | a failed join changes nothing, and the only delivery is `joinRoomError` with the requested name, to the requester |
| Runs.PixelBroadcastReachesExactlyTheRoom | server.js:186-191 | after an accepted pixel update a session receives a message exactly when it is in that room and the message is the new board |
| Runs.CreateTwiceFails | server.js:93-120 | after a successful creation the room exists and a second creation of the same name is refused with `createRoomError` and no state change |
| Runs.UnjoinableRoomsCanBeCreated | server.js:91-128 | an empty or `index.html` name can be created, but joining it fails and asking for its board emits nothing |
| Runs.JoinMissingRoomCreatesNothing | server.js:143-146 | joining a name without a board leaves the state as it was and reports that name back to the requester |
| Runs.PaintingScenario | server.js:123-161 | create `abc`, two clients join, client 1 paints (3, 4) red: client 1 got the blank board on joining and the second client's arrival, and both get a board where only (3, 4) is red and every other cell is `#23272a` |

## Left out

- Dispatcher.PixelUpdate: requires that `board[x][y]` is an existing cell. The source checks only that the board exists; an `x` outside the board throws a `TypeError` in the handler; `y == 15` appends a cell to the row, and a larger `y` grows the row with holes; a negative `y` adds a non-index property, leaves the row's length at 15, and the handler still broadcasts the board and refreshes the timer. None of these outcomes is modelled, and no rejection path is invented.
- Runs.Run: and `Runs.Apply` take only pixel updates whose (x, y) lies on the 15×15 grid (`WellFormed`), because the out-of-range writes above are not modelled; the invariant is not promised for runs containing such updates. The restriction also excludes an off-grid pixel update on a room without a board, which the source handles harmlessly (it only sends `bootToHome`) and `Dispatcher.PixelUpdate` itself accepts; runs are not promised anything for it.
- Coordinates are integers; the source accepts whatever the client sends (strings that JavaScript coerces to indices, fractions, `undefined`) and this is not modelled.
- Room names and the fields of a `createRoom` payload are strings; a missing or non-string `roomName` is not modelled.
- Express setup, static files, `server.listen` and environment configuration (server.js:1-28): process bootstrap and I/O.
- Passport and Google OAuth wiring (server.js:30-40, server.js:52-62): a foreign library unrelated to rooms.
- The HTTP route `/:pathName` (server.js:65-81): HTTP plumbing, with a loose-equality comparison against `0`.
- The socket.io adapter: the lookup of the socket's rooms and leaving its own id room (server.js:131-132) are modelled as one optional room per session.
- Disconnection: the source has no disconnect handler; socket.io's removal of a closed socket from its rooms is not modelled.
- Real `setTimeout`/`clearTimeout` and wall-clock time: replaced by absolute deadlines on an abstract clock that only `Tick` advances.
- Runs.IdleRoomIsEvicted: relies on the model's ordering choice that a due room is deleted before any event handled at or after its deadline (`NoOverdueRoom` in `Registry.Valid`). Node only promises that a timeout fires no earlier than its delay, so in the source a pixel update handled after the deadline but before the callback runs cancels the pending deletion (server.js:216-217) and the room survives; that interleaving is not modelled.
- `console.log` output.
- The delivery order of broadcasts across sessions.
- Serialisation of the board object: a broadcast carries the board as it is at the moment of emission.
