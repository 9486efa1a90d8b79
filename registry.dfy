/**
 * The server's room table `gameRooms` and each connection's `socket.roomId`:
 * a join creates its room on first use, a disconnect that empties a room
 * deletes it, and every other command and timer callback reaches only the
 * room it names, doing nothing when that room does not exist.
 */
module Registry {
  import opened Wrappers
  import opened Questions
  import opened Grouping
  import opened Players
  import opened Rooms

  /** A game-master command or an answer, with the room id it names. */
  datatype Command =
    | RemovePlayer(roomId: string, playerId: string)
    | StartGame(roomId: string)
    | SubmitAnswer(roomId: string, answer: string)
    | PauseTimer(roomId: string)
    | ResumeTimer(roomId: string)
    | SkipQuestion(roomId: string)
    | EditQuestion(roomId: string, newQuestion: string)
    | EliminatePlayer(roomId: string, playerId: string)
    | NextRound(roomId: string)
    | ResetGame(roomId: string)

  /** The state a command leaves in the room it names: the post-state of that command's handler. */
  twostate predicate Obeys(room: Room, conn: string, cmd: Command, bank: QuestionBank, pick: nat)
    reads room
  {
    match cmd
    case RemovePlayer(_, playerId) => room.AfterRemovePlayer(conn, playerId)
    case StartGame(_) => room.AfterStartGame(conn, bank, pick)
    case SubmitAnswer(_, answer) => room.AfterSubmitAnswer(conn, answer)
    case PauseTimer(_) => room.AfterPauseTimer(conn)
    case ResumeTimer(_) => room.AfterResumeTimer(conn)
    case SkipQuestion(_) => room.AdvancedBy(conn, bank, pick)
    case EditQuestion(_, q) => room.AfterEditQuestion(conn, q)
    case EliminatePlayer(_, playerId) => room.AfterEliminatePlayer(conn, playerId)
    case NextRound(_) => room.AdvancedBy(conn, bank, pick)
    case ResetGame(_) => room.AfterResetGame(conn)
  }

  /** The handler of `cmd`, run on the room it names. */
  method Dispatch(room: Room, conn: string, cmd: Command, bank: QuestionBank, pick: nat)
    requires room.Valid()
    modifies room
    ensures room.Valid() && Obeys(room, conn, cmd, bank, pick)
    ensures !old(room.IsMaster(conn)) && !cmd.SubmitAnswer? ==> unchanged(room)
  {
    match cmd {
      case RemovePlayer(_, playerId) => room.RemovePlayer(conn, playerId);
      case StartGame(_) => var _ := room.StartGame(conn, bank, pick);
      case SubmitAnswer(_, answer) => var _ := room.SubmitAnswer(conn, answer);
      case PauseTimer(_) => room.PauseTimer(conn);
      case ResumeTimer(_) => room.ResumeTimer(conn);
      case SkipQuestion(_) => var _ := room.SkipQuestion(conn, bank, pick);
      case EditQuestion(_, q) => room.EditQuestion(conn, q);
      case EliminatePlayer(_, playerId) => room.EliminatePlayer(conn, playerId);
      case NextRound(_) => var _ := room.NextRoundCommand(conn, bank, pick);
      case ResetGame(_) => room.ResetGame(conn);
    }
  }

  class Server {
    /** `gameRooms`. */
    var rooms: map<string, Room>
    /** `socket.roomId` of each connection that has joined a room. */
    var roomOf: map<string, string>

    /** Every room keeps its invariant. */
    ghost predicate Valid()
      reads this, rooms.Values
    {
      forall r | r in rooms.Values :: r.Valid()
    }

    /** A server with no rooms and no connections. */
    constructor ()
      ensures Valid() && rooms == map[] && roomOf == map[]
    {
      rooms := map[];
      roomOf := map[];
    }

    /** The room `roomId`, created empty, never started, with the given game type when it does not exist yet. */
    method RoomFor(roomId: string, gameType: string) returns (room: Room)
      requires Valid()
      modifies this
      ensures Valid() && roomOf == old(roomOf)
      ensures roomId in rooms && rooms[roomId] == room && room.Valid()
      ensures roomId in old(rooms) ==> rooms == old(rooms)
      ensures roomId !in old(rooms) ==>
        && rooms == old(rooms)[roomId := room]
        && fresh(room) && room.gameType == gameType && room.players == [] && room.gameMaster == None
        && room.NeverStarted()
    {
      if roomId in rooms {
        room := rooms[roomId];
      } else {
        room := new Room(gameType);
        rooms := rooms[roomId := room];
      }
    }

    /**
     * `joinGame`: the room is created empty on first use, then joined; the
     * connection's room becomes `roomId`. Returns whether the caller is the
     * room's game master and whether its game has started.
     */
    method Join(conn: string, roomId: string, name: string, wantsMaster: bool, gameType: string)
      returns (isMaster: bool, started: bool)
      requires Valid()
      modifies this, rooms.Values
      ensures Valid() && roomId in rooms
      ensures rooms == if roomId in old(rooms) then old(rooms) else old(rooms)[roomId := rooms[roomId]]
      ensures forall r | r in old(rooms.Values) && r != rooms[roomId] :: unchanged(r)
      ensures roomOf == old(roomOf)[conn := roomId]
      ensures roomId in old(rooms) ==> rooms[roomId].AfterJoin(conn, name, wantsMaster)
      ensures roomId !in old(rooms) ==>
        var room := rooms[roomId];
        && fresh(room) && room.gameType == gameType && room.NeverStarted()
        && room.players == Joined([], conn, name, wantsMaster)
        && room.gameMaster == if wantsMaster then Some(conn) else None
      ensures isMaster <==> rooms[roomId].IsMaster(conn)
      ensures started == rooms[roomId].gameStarted
    {
      var _ := RoomFor(roomId, gameType);
      isMaster, started := JoinExisting(conn, roomId, name, wantsMaster);
    }

    /** The second half of `joinGame`, once room `roomId` exists. */
    method JoinExisting(conn: string, roomId: string, name: string, wantsMaster: bool)
      returns (isMaster: bool, started: bool)
      requires Valid() && roomId in rooms
      modifies this, rooms[roomId]
      ensures Valid() && rooms == old(rooms)
      ensures roomOf == old(roomOf)[conn := roomId]
      ensures rooms[roomId].AfterJoin(conn, name, wantsMaster)
      ensures isMaster <==> rooms[roomId].IsMaster(conn)
      ensures started == rooms[roomId].gameStarted
    {
      var room := rooms[roomId];
      isMaster := room.Join(conn, name, wantsMaster);
      started := room.gameStarted;
      roomOf := roomOf[conn := roomId];
    }

    /**
     * The connection's last joined room, which its disconnection leaves: a
     * non-empty room id (the empty id is falsy and skipped) of a room that
     * still exists.
     */
    predicate LeavesRoom(conn: string)
      reads this
    {
      conn in roomOf && roomOf[conn] != "" && roomOf[conn] in rooms
    }

    /**
     * `disconnect`: the connection leaves the room it last joined, if that
     * room still exists, and a room left empty is deleted.
     */
    method Disconnect(conn: string)
      requires Valid()
      modifies this, rooms.Values
      ensures Valid()
      ensures roomOf == old(roomOf) - {conn}
      ensures !old(LeavesRoom(conn)) ==> rooms == old(rooms)
      ensures old(LeavesRoom(conn)) ==>
        var id := old(roomOf[conn]);
        var room := old(rooms[id]);
        && room.AfterLeave(conn)
        && (rooms == if room.players == [] then old(rooms) - {id} else old(rooms))
      ensures forall r | r in old(rooms.Values) && (!old(LeavesRoom(conn)) || r != old(rooms[roomOf[conn]])) :: unchanged(r)
    {
      if LeavesRoom(conn) {
        var id := roomOf[conn];
        var room := rooms[id];
        var empty := room.Leave(conn);
        if empty {
          rooms := rooms - {id};
        }
      }
      roomOf := roomOf - {conn};
    }

    /**
     * A command from connection `conn`: handled by the room it names, with no
     * effect when that room does not exist. `bank` and `pick` stand for the
     * question bank and the random draw of a new round.
     */
    method Handle(conn: string, cmd: Command, bank: QuestionBank, pick: nat)
      requires Valid()
      modifies rooms.Values
      ensures Valid()
      ensures forall r | r in rooms.Values && (cmd.roomId !in rooms || r != rooms[cmd.roomId]) :: unchanged(r)
      ensures cmd.roomId in rooms ==> Obeys(rooms[cmd.roomId], conn, cmd, bank, pick)
      ensures cmd.roomId in rooms && !old(rooms[cmd.roomId].IsMaster(conn)) && !cmd.SubmitAnswer? ==>
        unchanged(rooms[cmd.roomId])
    {
      if cmd.roomId in rooms {
        Dispatch(rooms[cmd.roomId], conn, cmd, bank, pick);
      }
    }

    /**
     * The delayed timer start scheduled by `startGame` and `nextRound`: the
     * named room's countdown starts if its game is on.
     */
    method TimerStartFires(roomId: string)
      requires Valid()
      modifies rooms.Values
      ensures Valid()
      ensures forall r | r in rooms.Values && (roomId !in rooms || r != rooms[roomId]) :: unchanged(r)
      ensures roomId in rooms ==> rooms[roomId].AfterDelayedStart()
    {
      if roomId in rooms {
        rooms[roomId].StartTimerIfStarted();
      }
    }

    /** One second of the named room's countdown; returns the round's groups when it ends. */
    method TickFires(roomId: string) returns (report: Option<Groups>)
      requires Valid()
      modifies rooms.Values
      ensures Valid()
      ensures forall r | r in rooms.Values && (roomId !in rooms || r != rooms[roomId]) :: unchanged(r)
      ensures roomId !in rooms ==> report.None?
      ensures roomId in rooms ==> rooms[roomId].AfterTick(report)
      ensures report.Some? ==> Reports(report.value, rooms[roomId].answers)
    {
      report := None;
      if roomId in rooms {
        report := rooms[roomId].Tick();
      }
    }
  }
}
