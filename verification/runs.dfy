/**
 Sequences of events: what a running server receives between two moments,
 and the properties that hold across any such sequence.
 */
module Runs {
  import opened Canvas
  import opened Registry
  import opened Dispatcher

  /** One thing that can happen to the server: a client event, or time passing. */
  datatype Input =
    | Create(session: SessionId, data: Request)
    | Join(session: SessionId, name: RoomName)
    | Pixel(session: SessionId, name: RoomName, x: int, y: int, colour: Color)
    | AskUpdate(session: SessionId, name: RoomName)
    | Elapse(ms: nat)

  /** Pixel updates name a cell of the grid. */
  predicate WellFormed(i: Input) {
    i.Pixel? ==> InRange(i.x, i.y)
  }

  predicate AllWellFormed(inputs: seq<Input>) {
    forall k :: 0 <= k < |inputs| ==> WellFormed(inputs[k])
  }

  /** The handler an input triggers. */
  function Apply(st: State, i: Input): (r: Step)
    requires Valid(st) && WellFormed(i)
    ensures Valid(r.st)
    ensures st.now <= r.st.now
  {
    match i
    case Create(s, data) => CreateRoom(st, s, data)
    case Join(s, name) => JoinRoom(st, s, name)
    case Pixel(s, name, x, y, colour) => PixelUpdate(st, s, name, x, y, colour)
    case AskUpdate(s, name) => RequestUpdate(st, s, name)
    case Elapse(ms) => Tick(st, st.now + ms)
  }

  /** The state after handling `inputs` in order, starting from `st`. */
  function Run(st: State, inputs: seq<Input>): (r: State)
    requires Valid(st) && AllWellFormed(inputs)
    ensures Valid(r)
    ensures st.now <= r.now
    decreases |inputs|
  {
    if |inputs| == 0 then st
    else Run(Apply(st, inputs[0]).st, inputs[1..])
  }

  /** Whether the input is one that can give room `n` a new deadline. */
  predicate Touches(i: Input, n: RoomName) {
    (i.Create? && i.data.roomName == n) || (i.Pixel? && i.name == n)
  }

  /**
   Only an accepted pixel update moves a live room's deadline: any other
   input leaves the deadline of every room that survives it where it was.
   */
  lemma OnlyPixelUpdatesExtendLife(st: State, i: Input, n: RoomName)
    requires Valid(st) && WellFormed(i)
    requires n in st.deadlines && n in Apply(st, i).st.deadlines
    requires !(i.Pixel? && i.name == n)
    ensures Apply(st, i).st.deadlines[n] == st.deadlines[n]
  {
  }

  /** An accepted pixel update moves its room's deadline a full window past the current time. */
  lemma PixelUpdateExtendsLife(st: State, s: SessionId, n: RoomName, x: int, y: int, c: Color)
    requires Valid(st) && n in st.boards && InRange(x, y)
    ensures n in Apply(st, Pixel(s, n, x, y, c)).st.deadlines
    ensures Apply(st, Pixel(s, n, x, y, c)).st.deadlines[n] == st.now + RoomTimeoutMs
    ensures st.deadlines[n] <= Apply(st, Pixel(s, n, x, y, c)).st.deadlines[n]
  {
  }

  /**
   A room that no input recreates or paints is, at the end, either gone from
   both tables or still in both with its original deadline.
   */
  lemma {:induction false} UntouchedRoomKeepsDeadline(st: State, inputs: seq<Input>, n: RoomName)
    requires Valid(st) && AllWellFormed(inputs)
    requires forall k :: 0 <= k < |inputs| ==> !Touches(inputs[k], n)
    requires n in st.boards
    decreases |inputs|
    ensures var r := Run(st, inputs);
      (n in r.boards && n in r.deadlines && r.deadlines[n] == st.deadlines[n])
      || (n !in r.boards && n !in r.deadlines)
  {
    if |inputs| > 0 {
      var next := Apply(st, inputs[0]).st;
      assert !Touches(inputs[0], n);
      if n in next.boards {
        assert next.deadlines[n] == st.deadlines[n];
        UntouchedRoomKeepsDeadline(next, inputs[1..], n);
      } else {
        assert forall k :: 0 <= k < |inputs[1..]| ==> !Touches(inputs[1..][k], n);
        DeletedRoomStaysDeleted(next, inputs[1..], n);
      }
    }
  }

  /**
   A deleted room stays deleted while no input creates it again; pixel
   updates on it only send their sender home.
   */
  lemma {:induction false} DeletedRoomStaysDeleted(st: State, inputs: seq<Input>, n: RoomName)
    requires Valid(st) && AllWellFormed(inputs)
    requires forall k :: 0 <= k < |inputs| ==> !(inputs[k].Create? && inputs[k].data.roomName == n)
    requires n !in st.boards
    ensures n !in Run(st, inputs).boards && n !in Run(st, inputs).deadlines
    decreases |inputs|
  {
    if |inputs| > 0 {
      assert !(inputs[0].Create? && inputs[0].data.roomName == n);
      DeletedRoomStaysDeleted(Apply(st, inputs[0]).st, inputs[1..], n);
    }
  }

  /**
   Eviction: once the clock has reached the deadline a room had, the room is
   gone, whatever joins and board requests happened in between, unless a
   pixel update or a re-creation touched it.
   */
  lemma IdleRoomIsEvicted(st: State, inputs: seq<Input>, n: RoomName)
    requires Valid(st) && AllWellFormed(inputs)
    requires forall k :: 0 <= k < |inputs| ==> !Touches(inputs[k], n)
    requires n in st.boards
    ensures Run(st, inputs).now >= st.deadlines[n] ==> n !in Run(st, inputs).boards
  {
    UntouchedRoomKeepsDeadline(st, inputs, n);
  }

  /**
   A room is deleted on its deadline even with sessions in it; they stay
   recorded as members, and their next pixel update only sends them home.
   */
  lemma ExpiredRoomBootsMembers(st: State, s: SessionId, n: RoomName, t: int, x: int, y: int, c: Color)
    requires Valid(st) && InRoom(st, s, n) && n in st.boards
    requires st.deadlines[n] <= t
    ensures var after := Tick(st, t).st;
      && n !in after.boards && n !in after.deadlines
      && InRoom(after, s, n)
      && PixelUpdate(after, s, n, x, y, c) == Step(after, [ToSession(s, BootToHome)])
  {
  }

  /**
   Joining room `b` takes a session out of every other room: a later
   broadcast to a room `a` other than `b` does not reach it.
   */
  lemma JoinLeavesPreviousRoom(st: State, s: SessionId, a: RoomName, b: RoomName, m: Message)
    requires CanEnter(st, b) && a != b
    ensures InRoom(JoinRoom(st, s, b).st, s, b)
    ensures !Delivers(JoinRoom(st, s, b).st, ToRoom(a, m), s, m)
  {
  }

  /**
   A session outside room `a` stays outside it, across any run in which it
   does not join `a` itself: from then on no broadcast to `a` reaches it.
   */
  lemma {:induction false} LeftRoomStaysLeft(st: State, inputs: seq<Input>, s: SessionId, a: RoomName, m: Message)
    requires Valid(st) && AllWellFormed(inputs) && !InRoom(st, s, a)
    requires forall k :: 0 <= k < |inputs| ==> !(inputs[k].Join? && inputs[k].session == s && inputs[k].name == a)
    ensures !InRoom(Run(st, inputs), s, a)
    ensures !Delivers(Run(st, inputs), ToRoom(a, m), s, m)
    decreases |inputs|
  {
    if |inputs| > 0 {
      assert !(inputs[0].Join? && inputs[0].session == s && inputs[0].name == a);
      LeftRoomStaysLeft(Apply(st, inputs[0]).st, inputs[1..], s, a, m);
    }
  }

  /** A joiner is told of its own arrival and receives the board of the room. */
  lemma JoinerReceivesBoard(st: State, s: SessionId, n: RoomName)
    requires CanEnter(st, n)
    ensures Receives(JoinRoom(st, s, n), s, NewUserJoin)
    ensures Receives(JoinRoom(st, s, n), s, BoardUpdateFromServer(st.boards[n]))
  {
    var r := JoinRoom(st, s, n);
    assert Delivers(r.st, r.out[0], s, NewUserJoin);
    assert Delivers(r.st, r.out[1], s, BoardUpdateFromServer(st.boards[n]));
  }

  /**
   A failed join leaves everything as it was and reaches only the
   requester, with the name it asked for.
   */
  lemma FailedJoinReachesOnlyRequester(st: State, s: SessionId, n: RoomName, other: SessionId, m: Message)
    requires !CanEnter(st, n)
    ensures JoinRoom(st, s, n).st == st
    ensures Receives(JoinRoom(st, s, n), s, JoinRoomError(n))
    ensures Receives(JoinRoom(st, s, n), other, m) <==> other == s && m == JoinRoomError(n)
  {
    var r := JoinRoom(st, s, n);
    assert Delivers(r.st, r.out[0], s, JoinRoomError(n));
  }

  /**
   Every session in the room of an accepted pixel update, the sender
   included when it is a member, receives the new board; sessions elsewhere
   receive nothing.
   */
  lemma PixelBroadcastReachesExactlyTheRoom(st: State, s: SessionId, n: RoomName, x: int, y: int, c: Color,
                                            other: SessionId, m: Message)
    requires Valid(st) && n in st.boards && InRange(x, y)
    ensures var r := PixelUpdate(st, s, n, x, y, c);
      Receives(r, other, m) <==> InRoom(st, other, n) && m == BoardUpdateFromServer(r.st.boards[n])
  {
    var r := PixelUpdate(st, s, n, x, y, c);
    if InRoom(st, other, n) && m == BoardUpdateFromServer(r.st.boards[n]) {
      assert Delivers(r.st, r.out[0], other, m);
    }
  }

  /** Creating a name succeeds once: the room then exists and a second create is refused. */
  lemma CreateTwiceFails(st: State, s1: SessionId, s2: SessionId, d1: Request, d2: Request)
    requires Valid(st) && d1.roomName !in st.boards && d2.roomName == d1.roomName
    ensures var first := CreateRoom(st, s1, d1);
      && first.out == [ToSession(s1, CreateRoomSuccess(d1))]
      && d1.roomName in first.st.boards
      && CreateRoom(first.st, s2, d2) == Step(first.st, [ToSession(s2, CreateRoomError(d2))])
  {
  }

  /**
   The name checks are made by `joinRoom` only: `createRoom` accepts the
   empty name and the landing-page name, but such rooms can never be joined
   or asked for their board.
   */
  lemma UnjoinableRoomsCanBeCreated(st: State, s: SessionId, d: Request)
    requires Valid(st) && d.roomName !in st.boards && !Joinable(d.roomName)
    ensures var created := CreateRoom(st, s, d).st;
      && d.roomName in created.boards
      && JoinRoom(created, s, d.roomName).out == [ToSession(s, JoinRoomError(d.roomName))]
      && RequestUpdate(created, s, d.roomName).out == []
  {
  }

  /** Joining a room that does not exist creates nothing and reports the name back. */
  lemma JoinMissingRoomCreatesNothing(st: State, s: SessionId, n: RoomName)
    requires n !in st.boards
    ensures JoinRoom(st, s, n) == Step(st, [ToSession(s, JoinRoomError(n))])
  {
  }

  /**
   The walk-through of one room: create "abc", two clients join, client 1
   paints (3, 4) red; both receive a board where only (3, 4) is red.
   */
  lemma PaintingScenario(st: State, c1: SessionId, c2: SessionId)
    requires Valid(st) && "abc" !in st.boards && c1 != c2
    ensures var s0 := CreateRoom(st, c1, Request("abc", map[])).st;
      var j1 := JoinRoom(s0, c1, "abc");
      var j2 := JoinRoom(j1.st, c2, "abc");
      var p := PixelUpdate(j2.st, c1, "abc", 3, 4, "#ff0000");
      var b := p.st.boards["abc"];
      && Receives(j1, c1, BoardUpdateFromServer(Blank()))
      && Receives(j2, c1, NewUserJoin)
      && Receives(p, c1, BoardUpdateFromServer(b))
      && Receives(p, c2, BoardUpdateFromServer(b))
      && IsGrid(b) && b[3][4] == "#ff0000"
      && (forall i, j :: 0 <= i < Width && 0 <= j < Width && (i, j) != (3, 4) ==> b[i][j] == Background)
  {
    var s0 := CreateRoom(st, c1, Request("abc", map[])).st;
    BlankIsUnique(s0.boards["abc"]);
    var j1 := JoinRoom(s0, c1, "abc");
    JoinerReceivesBoard(s0, c1, "abc");
    var j2 := JoinRoom(j1.st, c2, "abc");
    assert Delivers(j2.st, j2.out[0], c1, NewUserJoin);
    var p := PixelUpdate(j2.st, c1, "abc", 3, 4, "#ff0000");
    PixelBroadcastReachesExactlyTheRoom(j2.st, c1, "abc", 3, 4, "#ff0000", c1, BoardUpdateFromServer(p.st.boards["abc"]));
    PixelBroadcastReachesExactlyTheRoom(j2.st, c1, "abc", 3, 4, "#ff0000", c2, BoardUpdateFromServer(p.st.boards["abc"]));
  }
}
