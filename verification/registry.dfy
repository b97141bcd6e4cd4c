/**
 The server's room tables: the board of every live room, the pending
 deletion of every live room, and the room each connected session is in.
 A pending `setTimeout` handle is represented by the absolute time at which
 it fires, on an abstract millisecond clock `now`.
 */
module Registry {
  import opened Canvas

  type RoomName = string

  /** Identifier of one socket connection. */
  type SessionId = string

  /** Inactivity window after which a room is deleted, in milliseconds. */
  const RoomTimeoutMs: int := 1800000

  /**
   `boards` is the room-to-board table, `deadlines` the room-to-timer table,
   `member` maps a session to the one room it has joined (absent: none).
   */
  datatype State = State(
    boards: map<RoomName, Board>,
    deadlines: map<RoomName, int>,
    member: map<SessionId, RoomName>,
    now: int)

  /** The board table and the timer table have the same rooms. */
  predicate InSync(st: State) {
    st.boards.Keys == st.deadlines.Keys
  }

  /** A deadline that is not later than the clock has already fired. */
  predicate NoOverdueRoom(st: State) {
    forall n :: n in st.deadlines ==> st.now < st.deadlines[n]
  }

  /** No deadline lies more than one window ahead of the clock. */
  predicate WithinWindow(st: State) {
    forall n :: n in st.deadlines ==> st.deadlines[n] <= st.now + RoomTimeoutMs
  }

  /** Every board is a `Width` by `Width` grid. */
  predicate AllGrids(st: State) {
    forall n :: n in st.boards ==> IsGrid(st.boards[n])
  }

  /** What holds between any two events of a running server. */
  predicate Valid(st: State) {
    InSync(st) && NoOverdueRoom(st) && WithinWindow(st) && AllGrids(st)
  }

  /** Both tables empty and no session in a room, at clock reading `now`. */
  function Initial(now: int): (st: State)
    ensures Valid(st)
    ensures st.boards.Keys == {} && st.member.Keys == {} && st.now == now
  {
    State(map[], map[], map[], now)
  }

  /** Removes a room from both tables; memberships and the clock are left alone. */
  function DeleteRoom(st: State, name: RoomName): (r: State)
    ensures r.boards.Keys == st.boards.Keys - {name}
    ensures r.deadlines.Keys == st.deadlines.Keys - {name}
    ensures forall n :: n in r.boards ==> r.boards[n] == st.boards[n]
    ensures forall n :: n in r.deadlines ==> r.deadlines[n] == st.deadlines[n]
    ensures r.member == st.member && r.now == st.now
    ensures Valid(st) ==> Valid(r)
  {
    st.(boards := st.boards - {name}, deadlines := st.deadlines - {name})
  }

  /** Deleting a room a second time changes nothing. */
  lemma DeleteRoomIdempotent(st: State, name: RoomName)
    ensures DeleteRoom(DeleteRoom(st, name), name) == DeleteRoom(st, name)
  {
  }

  /**
   Schedules the deletion of `name` one window from now. The room must have
   no pending deletion: this operation does not cancel one.
   */
  function StartRoomTimer(st: State, name: RoomName): (r: State)
    requires name !in st.deadlines
    ensures r.deadlines.Keys == st.deadlines.Keys + {name}
    ensures r.deadlines[name] == st.now + RoomTimeoutMs
    ensures forall n :: n in st.deadlines ==> r.deadlines[n] == st.deadlines[n]
    ensures r.boards == st.boards && r.member == st.member && r.now == st.now
  {
    st.(deadlines := st.deadlines[name := st.now + RoomTimeoutMs])
  }

  /**
   Cancels the pending deletion of `name`, if any, and schedules a new one
   a full window from now: afterwards `name` has exactly one deadline.
   */
  function RefreshRoomTimer(st: State, name: RoomName): (r: State)
    ensures r.deadlines.Keys == st.deadlines.Keys + {name}
    ensures r.deadlines[name] == st.now + RoomTimeoutMs
    ensures forall n :: n in st.deadlines && n != name ==> r.deadlines[n] == st.deadlines[n]
    ensures r.boards == st.boards && r.member == st.member && r.now == st.now
  {
    var cancelled := st.(deadlines := st.deadlines - {name});
    StartRoomTimer(cancelled, name)
  }

  /** The rooms whose deletion has fired by time `t`. */
  function Due(deadlines: map<RoomName, int>, t: int): set<RoomName> {
    set n | n in deadlines && deadlines[n] <= t
  }

  /**
   Advances the clock to `t`, deleting every room whose deadline is at most
   `t`, whether or not sessions are still in it.
   */
  function Expire(st: State, t: int): (r: State)
    requires st.now <= t
    ensures r.now == t && r.member == st.member
    ensures forall n :: n in r.deadlines <==> n in st.deadlines && t < st.deadlines[n]
    ensures forall n :: n in r.boards <==> n in st.boards && !(n in st.deadlines && st.deadlines[n] <= t)
    ensures forall n :: n in r.boards ==> r.boards[n] == st.boards[n]
    ensures forall n :: n in r.deadlines ==> r.deadlines[n] == st.deadlines[n]
    ensures Valid(st) ==> Valid(r)
  {
    var due := Due(st.deadlines, t);
    st.(boards := st.boards - due, deadlines := st.deadlines - due, now := t)
  }

  /**
   The clock reaches `t` and the timers that are due fire one after another,
   each deleting its room; the outcome is that of `Expire`.
   */
  method FireTimers(st: State, t: int) returns (r: State)
    requires st.now <= t
    ensures r == Expire(st, t)
  {
    var all := Due(st.deadlines, t);
    var pending := all;
    r := st.(now := t);
    while pending != {}
      invariant pending <= all
      invariant r.boards == st.boards - (all - pending)
      invariant r.deadlines == st.deadlines - (all - pending)
      invariant r.member == st.member && r.now == t
      decreases pending
    {
      var n :| n in pending;
      r := DeleteRoom(r, n);
      pending := pending - {n};
    }
  }
}
