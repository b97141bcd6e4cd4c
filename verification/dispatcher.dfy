/**
 The socket event handlers. Each handler runs to completion on the event
 loop, so each is a pure transition from one `State` to the next, returning
 the events the server emits: either to the requesting socket alone or to
 every socket in a room.
 */
module Dispatcher {
  import opened Canvas
  import opened Registry

  /**
   The payload of a `createRoom` event: the room name plus whatever other
   fields the client sent, which the server echoes back untouched.
   */
  datatype Request = Request(roomName: RoomName, otherFields: map<string, string>)

  /** Server-to-client events. */
  datatype Message =
    | CreateRoomSuccess(request: Request)
    | CreateRoomError(request: Request)
    | JoinRoomError(roomName: RoomName)
    | NewUserJoin
    | BoardUpdateFromServer(board: Board)
    | BootToHome

  /** An emitted event and where it goes. */
  datatype Outbound =
    | ToSession(session: SessionId, msg: Message)
    | ToRoom(room: RoomName, msg: Message)

  /** The state after a handler and the events it emitted, in order. */
  datatype Step = Step(st: State, out: seq<Outbound>)

  /** The literal the landing page is served under can never be joined. */
  const LandingPage: RoomName := "index.html"

  /** The name checks made before joining a room or answering a board request. */
  predicate Joinable(name: RoomName) {
    name != LandingPage && |name| != 0
  }

  /** A room that `joinRoom` and `requestUpdate` accept. */
  predicate CanEnter(st: State, name: RoomName) {
    name in st.boards && Joinable(name)
  }

  /** Session `s` is in room `name`. */
  predicate InRoom(st: State, s: SessionId, name: RoomName) {
    s in st.member && st.member[s] == name
  }

  /** Session `s` receives message `m` from the emission `o`, made in state `st`. */
  predicate Delivers(st: State, o: Outbound, s: SessionId, m: Message) {
    match o
    case ToSession(target, msg) => target == s && msg == m
    case ToRoom(room, msg) => msg == m && InRoom(st, s, room)
  }

  /** Session `s` receives `m` from some event of the step. */
  predicate Receives(step: Step, s: SessionId, m: Message) {
    exists k :: 0 <= k < |step.out| && Delivers(step.st, step.out[k], s, m)
  }

  /**
   `createRoom`: a name with no board gets a blank board and a deletion one
   window away, and the requester alone is told of the success; a name that
   already has a board changes nothing and the requester alone gets an
   error. The name itself is not checked.
   */
  function CreateRoom(st: State, session: SessionId, data: Request): (r: Step)
    requires InSync(st)
    ensures data.roomName !in st.boards ==>
      && r.st.boards.Keys == st.boards.Keys + {data.roomName}
      && IsGrid(r.st.boards[data.roomName])
      && Uniform(r.st.boards[data.roomName], Background)
      && (forall n :: n in st.boards ==> r.st.boards[n] == st.boards[n])
      && r.st.deadlines.Keys == st.deadlines.Keys + {data.roomName}
      && r.st.deadlines[data.roomName] == st.now + RoomTimeoutMs
      && (forall n :: n in st.deadlines ==> r.st.deadlines[n] == st.deadlines[n])
      && r.st.member == st.member && r.st.now == st.now
      && r.out == [ToSession(session, CreateRoomSuccess(data))]
    ensures data.roomName in st.boards ==>
      r.st == st && r.out == [ToSession(session, CreateRoomError(data))]
    ensures Valid(st) ==> Valid(r.st)
  {
    var name := data.roomName;
    if name !in st.boards then
      var withBoard := st.(boards := st.boards[name := Blank()]);
      Step(StartRoomTimer(withBoard, name), [ToSession(session, CreateRoomSuccess(data))])
    else
      Step(st, [ToSession(session, CreateRoomError(data))])
  }

  /**
   `joinRoom`: on an existing, joinable name the session leaves its previous
   room for this one, and the whole room (the newcomer included) is told of
   the arrival and sent the board; otherwise only the requester gets an
   error naming the room. No board and no deadline changes either way.
   */
  function JoinRoom(st: State, session: SessionId, name: RoomName): (r: Step)
    ensures r.st.boards == st.boards && r.st.deadlines == st.deadlines && r.st.now == st.now
    ensures CanEnter(st, name) ==>
      && r.st.member.Keys == st.member.Keys + {session}
      && r.st.member[session] == name
      && (forall s :: s in st.member && s != session ==> r.st.member[s] == st.member[s])
      && r.out == [ToRoom(name, NewUserJoin), ToRoom(name, BoardUpdateFromServer(st.boards[name]))]
    ensures !CanEnter(st, name) ==>
      r.st == st && r.out == [ToSession(session, JoinRoomError(name))]
    ensures Valid(st) ==> Valid(r.st)
  {
    if CanEnter(st, name) then
      var joined := st.(member := st.member[session := name]);
      Step(joined, [ToRoom(name, NewUserJoin), ToRoom(name, BoardUpdateFromServer(st.boards[name]))])
    else
      Step(st, [ToSession(session, JoinRoomError(name))])
  }

  /**
   `pixelUpdateFromClient`: on a room with a board, exactly one cell takes
   the new colour, the room's deletion is pushed a full window away, and the
   new board goes to the whole room, sender included (whether or not the
   sender is in that room). On a room without a board only the sender is
   sent home. The write must hit an existing cell; see README.
   */
  function PixelUpdate(st: State, session: SessionId, name: RoomName, x: int, y: int, colour: Color): (r: Step)
    requires name in st.boards ==> HasCell(st.boards[name], x, y)
    ensures r.st.member == st.member && r.st.now == st.now
    ensures name in st.boards ==>
      && r.st.boards.Keys == st.boards.Keys
      && (forall n :: n in st.boards && n != name ==> r.st.boards[n] == st.boards[n])
      && SameShape(r.st.boards[name], st.boards[name])
      && r.st.boards[name][x][y] == colour
      && (forall i, j :: 0 <= i < |st.boards[name]| && 0 <= j < |st.boards[name][i]| && (i, j) != (x, y) ==>
            r.st.boards[name][i][j] == st.boards[name][i][j])
      && r.st.deadlines.Keys == st.deadlines.Keys + {name}
      && r.st.deadlines[name] == st.now + RoomTimeoutMs
      && (forall n :: n in st.deadlines && n != name ==> r.st.deadlines[n] == st.deadlines[n])
      && r.out == [ToRoom(name, BoardUpdateFromServer(r.st.boards[name]))]
    ensures name !in st.boards ==>
      r.st == st && r.out == [ToSession(session, BootToHome)]
    ensures Valid(st) ==> Valid(r.st)
  {
    if name in st.boards then
      var board := SetCell(st.boards[name], x, y, colour);
      var painted := st.(boards := st.boards[name := board]);
      Step(RefreshRoomTimer(painted, name), [ToRoom(name, BoardUpdateFromServer(board))])
    else
      Step(st, [ToSession(session, BootToHome)])
  }

  /**
   `requestUpdate`: on an existing, joinable name the board is sent to the
   whole room (not only to the requester); otherwise nothing is emitted.
   The state never changes.
   */
  function RequestUpdate(st: State, session: SessionId, name: RoomName): (r: Step)
    ensures r.st == st
    ensures CanEnter(st, name) ==> r.out == [ToRoom(name, BoardUpdateFromServer(st.boards[name]))]
    ensures !CanEnter(st, name) ==> r.out == []
  {
    if CanEnter(st, name) then
      Step(st, [ToRoom(name, BoardUpdateFromServer(st.boards[name]))])
    else
      Step(st, [])
  }

  /** The clock advances to `t`; due rooms are deleted silently. */
  function Tick(st: State, t: int): (r: Step)
    requires st.now <= t
    ensures r.out == []
    ensures r.st.now == t && r.st.member == st.member
    ensures forall n :: n in r.st.boards <==> n in st.boards && !(n in st.deadlines && st.deadlines[n] <= t)
    ensures forall n :: n in r.st.boards ==> r.st.boards[n] == st.boards[n]
    ensures forall n :: n in r.st.deadlines <==> n in st.deadlines && t < st.deadlines[n]
    ensures forall n :: n in r.st.deadlines ==> r.st.deadlines[n] == st.deadlines[n]
    ensures Valid(st) ==> Valid(r.st)
  {
    Step(Expire(st, t), [])
  }
}
