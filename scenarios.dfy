/**
 * Short runs of the room handlers on a fresh room or server, as a client
 * would drive them, with what each run must produce.
 */
module Scenarios {
  import opened Wrappers
  import opened Text
  import opened Questions
  import opened Grouping
  import opened Players
  import opened Rooms
  import opened Registry

  /** " cat " trims to "cat". */
  lemma TrimCatExample()
    ensures Trim(" cat ") == "cat"
  {
    assert TrimStart(" cat ") == TrimStart("cat ") == "cat ";
    assert TrimEnd("cat ") == TrimEnd("cat") == "cat";
  }

  /** A fresh room with game master "a" (Ann) and player "b" (Bob), its game started. */
  method StartedRoom() returns (room: Room)
    ensures fresh(room) && room.Valid()
    ensures room.players == [Player("a", "Ann", true, false), Player("b", "Bob", false, false)]
    ensures room.gameMaster == Some("a") && room.gameStarted && room.currentRound == 1
    ensures room.answers == [] && !room.timerActive && !room.timerPaused
  {
    room := new Room("odd-one-in");
    var _ := room.Join("a", "Ann", true);
    assert room.players == [Player("a", "Ann", true, false)];
    assert !HasPlayer(room.players, "b");
    var _ := room.Join("b", "Bob", false);
    assert ActivePlayers(room.players) == room.players;
    var _ := room.StartGame("a", DefaultBank, 0);
  }

  /**
   * Ann answers " cat " and then "dog": the first answer is stored trimmed,
   * the second is refused.
   */
  method FirstAnswerStands() returns (first: bool, second: bool, stored: seq<Answer>)
    ensures first && !second
    ensures stored == [Answer("Ann", "cat", "a")]
  {
    var room := StartedRoom();
    room.StartTimerIfStarted();
    first := room.SubmitAnswer("a", " cat ");
    TrimCatExample();
    second := room.SubmitAnswer("a", "dog");
    stored := room.answers;
  }

  /** Answers sent before the countdown starts, or while it is paused, are refused. */
  method NoAnswerOutsideCountdown() returns (early: bool, paused: bool, resumed: bool)
    ensures !early && !paused && resumed
  {
    var room := StartedRoom();
    early := room.SubmitAnswer("b", "dog");
    room.StartTimerIfStarted();
    room.PauseTimer("a");
    paused := room.SubmitAnswer("b", "dog");
    room.ResumeTimer("a");
    resumed := room.SubmitAnswer("b", "dog");
  }

  /**
   * Ann answers and Bob stays silent: nine ticks report nothing, the tenth
   * ends the round with Bob eliminated and Ann's answer unique, and a further
   * tick does nothing.
   */
  method SilentPlayerEliminated() returns (quiet: bool, report: Option<Groups>, after: Option<Groups>, players: seq<Player>)
    ensures quiet
    ensures report == Some(Groups([], [Answer("Ann", "cat", "a")]))
    ensures after == None
    ensures players == [Player("a", "Ann", true, false), Player("b", "Bob", false, true)]
  {
    var room := StartedRoom();
    room.StartTimerIfStarted();
    var accepted := room.SubmitAnswer("a", "cat");
    assert Find(room.players, "a") == Some(Player("a", "Ann", true, false));
    assert Trim("cat") == "cat";
    assert room.answers == [Answer("Ann", "cat", "a")];
    quiet := TicksBeforeTheEnd(room);
    report, after, players := FinalTick(room);
  }

  /** The countdown's last second with only Ann's answer in, then one more tick. */
  method FinalTick(room: Room) returns (report: Option<Groups>, after: Option<Groups>, players: seq<Player>)
    requires room.Valid() && room.timerActive && !room.timerPaused && room.timeRemaining == 1
    requires room.players == [Player("a", "Ann", true, false), Player("b", "Bob", false, false)]
    requires room.answers == [Answer("Ann", "cat", "a")]
    modifies room
    ensures report == Some(Groups([], [Answer("Ann", "cat", "a")]))
    ensures after == None
    ensures players == [Player("a", "Ann", true, false), Player("b", "Bob", false, true)]
  {
    report := room.Tick();
    SingleAnswerGroups(Answer("Ann", "cat", "a"));
    BobOutAfterRound();
    after := room.Tick();
    players := room.players;
  }

  /** Nine seconds of a fresh countdown pass without ending the round. */
  method TicksBeforeTheEnd(room: Room) returns (quiet: bool)
    requires room.Valid() && room.timerActive && !room.timerPaused && room.timeRemaining == RoundSeconds
    modifies room
    ensures quiet
    ensures room.Valid() && room.timerActive && !room.timerPaused && room.timeRemaining == 1
    ensures room.players == old(room.players) && room.answers == old(room.answers)
  {
    quiet := true;
    var i := 0;
    while i < RoundSeconds - 1
      invariant 0 <= i <= RoundSeconds - 1
      invariant quiet
      invariant room.Valid() && room.timerActive && !room.timerPaused
      invariant room.timeRemaining == RoundSeconds - i
      invariant room.players == old(room.players) && room.answers == old(room.answers)
    {
      var r := room.Tick();
      quiet := quiet && r.None?;
      i := i + 1;
    }
  }

  /** Only Ann answered: the round's end eliminates Bob and leaves Ann in. */
  lemma BobOutAfterRound()
    ensures var ps := [Player("a", "Ann", true, false), Player("b", "Bob", false, false)];
      AfterRoundEnd(ps, [Answer("Ann", "cat", "a")])
        == [Player("a", "Ann", true, false), Player("b", "Bob", false, true)]
  {
    var ann := Answer("Ann", "cat", "a");
    assert HasAnswer([ann], "a") && !HasAnswer([ann], "b");
  }

  /** A round with one answer reports it as unique and forms no duplicate group. */
  lemma SingleAnswerGroups(a: Answer)
    ensures GroupAnswers([a]) == Groups([], [a])
  {
    var b := Bucket(Key(a.answer), [a]);
    SingleBucket(a);
    SingleEntry(b);
    SingleSplit(b);
    assert GroupAnswers([a]) == Split(Entries(Buckets([a])));
  }

  /** A bucket of one answer splits into that unique answer. */
  lemma SingleSplit(b: Bucket)
    requires |b.members| == 1
    ensures Split([b]) == Groups([], b.members)
  {
    assert [b][1..] == [];
  }

  /** A map with one entry lists just that entry. */
  lemma SingleEntry(b: Bucket)
    ensures Entries([b]) == [b]
  {
    assert [b][1..] == [];
    if IsArrayIndex(b.key) {
      assert IndexBuckets([b]) == [b] && NamedBuckets([b]) == [];
      assert SortByIndex([b]) == InsertByIndex([], b) == [b];
    } else {
      assert IndexBuckets([b]) == [] && NamedBuckets([b]) == [b];
    }
  }

  /**
   * With Bob eliminated, the next round ends the game with Ann as winner,
   * and the game is still marked as started.
   */
  method LastPlayerWins() returns (outcome: Option<RoundOutcome>, stillStarted: bool)
    ensures outcome == Some(GameEnded(Some(Player("a", "Ann", true, false))))
    ensures stillStarted
  {
    var room := StartedRoom();
    assert IndexOf(room.players, "b") == 1;
    room.EliminatePlayer("a", "b");
    assert room.players == [Player("a", "Ann", true, false), Player("b", "Bob", false, true)];
    assert ActivePlayers(room.players) == [Player("a", "Ann", true, false)];
    assert room.gameStarted;
    outcome := room.NextRoundCommand("a", DefaultBank, 0);
    stillStarted := room.gameStarted;
  }

  /** Bob is not the game master: his skip changes nothing. */
  method OnlyMasterSkips() returns (outcome: Option<RoundOutcome>, round: nat)
    ensures outcome == None && round == 1
  {
    var room := StartedRoom();
    outcome := room.SkipQuestion("b", DefaultBank, 0);
    round := room.currentRound;
  }

  /**
   * Ann creates room "r1" as game master and Bob joins; when Ann disconnects
   * Bob becomes game master, and when Bob disconnects the room is deleted.
   */
  method MasterHandOff() returns (bobIsMaster: bool, roomKept: bool, roomGone: bool)
    ensures bobIsMaster && roomKept && roomGone
  {
    var server, room := AnnAndBobJoin();
    HandOffFacts();
    assert server.LeavesRoom("a");
    server.Disconnect("a");
    bobIsMaster := room.gameMaster == Some("b") && room.players[0].isGameMaster;
    roomKept := "r1" in server.rooms;
    assert server.LeavesRoom("b") && server.rooms["r1"] == room;
    server.Disconnect("b");
    roomGone := "r1" !in server.rooms;
  }

  /** Ann creates room "r1" asking to be game master, and Bob joins it. */
  method AnnAndBobJoin() returns (server: Server, room: Room)
    ensures fresh(server) && fresh(room) && server.Valid()
    ensures server.rooms == map["r1" := room] && server.roomOf == map["a" := "r1", "b" := "r1"]
    ensures room.players == [Player("a", "Ann", true, false), Player("b", "Bob", false, false)]
    ensures room.gameMaster == Some("a")
  {
    server := new Server();
    var _, _ := server.Join("a", "r1", "Ann", true, "odd-one-in");
    room := server.rooms["r1"];
    assert room.gameMaster == Some("a");
    assert !HasPlayer([Player("a", "Ann", true, false)], "b");
    var _, _ := server.Join("b", "r1", "Bob", false, "odd-one-in");
  }

  /** Ann's departure hands the room to Bob; Bob's departure empties it. */
  lemma HandOffFacts()
    ensures var ann, bob := Player("a", "Ann", true, false), Player("b", "Bob", false, false);
      && AfterDisconnect([ann, bob], Some("a"), "a") == ([bob.(isGameMaster := true)], Some("b"))
      && AfterDisconnect([bob.(isGameMaster := true)], Some("b"), "b").0 == []
  {
    var ann, bob := Player("a", "Ann", true, false), Player("b", "Bob", false, false);
    assert Without([ann, bob], "a") == [bob];
    assert [bob][0 := bob.(isGameMaster := true)] == [bob.(isGameMaster := true)];
    assert Without([bob.(isGameMaster := true)], "b") == [];
  }
}
