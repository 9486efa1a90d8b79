/**
 * One game room (an entry of `gameRooms`) and the handlers that update it in
 * place: joining, removal, start, answer submission, the game master's timer
 * and round controls, reset, disconnection, and the helpers `startTimer`
 * (with its interval body as `Tick`), `endRound` and `nextRound`.
 *
 * A handler's sender is the `caller` connection id; broadcasts are not
 * modelled, and a handler's reply to its sender is returned where it carries
 * information. The new state each handler leaves is a two-state predicate
 * (`AfterJoin`, `AfterStartGame`, ...), so that the server's dispatch can
 * state it for the room a command names.
 */
module Rooms {
  import opened Wrappers
  import opened Text
  import opened Questions
  import opened Grouping
  import opened Players

  /** The length of a round's countdown, in seconds. */
  const RoundSeconds := 10

  /** The outcome of `startGame` for its sender. */
  datatype StartReply =
    | Ignored          // not the game master, or the game already started
    | NeedMorePlayers  // fewer than two players still in the game
    | Started

  /** What `nextRound` announces: the end of the game, or a new round with its question. */
  datatype RoundOutcome =
    | GameEnded(winner: Option<Player>)
    | RoundStarted(round: nat, question: Option<string>)

  class Room {
    var gameType: string
    var players: seq<Player>
    var gameMaster: Option<string>
    var gameStarted: bool
    var currentRound: nat
    var currentQuestion: Option<string>
    /** The round's answers in submission order (`answers`, keyed by connection id). */
    var answers: seq<Answer>
    var timerActive: bool
    var timerPaused: bool
    /** `currentTimerInterval` has been set; the source never resets it to `null`. */
    var hasInterval: bool
    var timeRemaining: int

    /**
     * The room's invariant: ids are distinct, only the game master carries the
     * game-master flag, each connection answers at most once, and a running
     * countdown has an interval and at least one second left.
     */
    ghost predicate Valid()
      reads this
    {
      && DistinctIds(players)
      && MasterFlagsAgree(players, gameMaster)
      && DistinctAnswerIds(answers)
      && (timerActive ==> hasInterval && timeRemaining >= 1)
      && 0 <= timeRemaining <= RoundSeconds
    }

    /** The caller is the room's game master: the guard of every control command. */
    predicate IsMaster(caller: string)
      reads this
    {
      gameMaster == Some(caller)
    }

    /** The state of a room whose game has never started: round 0, no question, no answers, no timer. */
    predicate NeverStarted()
      reads this
    {
      && !gameStarted && currentRound == 0 && currentQuestion == None && answers == []
      && !timerActive && !timerPaused && !hasInterval && timeRemaining == RoundSeconds
    }

    /** The game type, the player list and the game master are as before. */
    twostate predicate PlayersKept()
      reads this
    {
      gameType == old(gameType) && players == old(players) && gameMaster == old(gameMaster)
    }

    /** The game's progress (started, round, question, answers) is as before. */
    twostate predicate RoundKept()
      reads this
    {
      && gameStarted == old(gameStarted) && currentRound == old(currentRound)
      && currentQuestion == old(currentQuestion) && answers == old(answers)
    }

    /** The countdown is as before. */
    twostate predicate TimerKept()
      reads this
    {
      && timerActive == old(timerActive) && timerPaused == old(timerPaused)
      && hasInterval == old(hasInterval) && timeRemaining == old(timeRemaining)
    }

    /** Every field is as before. */
    twostate predicate Kept()
      reads this
    {
      PlayersKept() && RoundKept() && TimerKept()
    }

    /** A new, empty room of the given game type. */
    constructor (gameType: string)
      ensures Valid()
      ensures this.gameType == gameType && players == [] && gameMaster == None && NeverStarted()
    {
      this.gameType := gameType;
      players := [];
      gameMaster := None;
      gameStarted := false;
      currentRound := 0;
      currentQuestion := None;
      answers := [];
      timerActive := false;
      timerPaused := false;
      hasInterval := false;
      timeRemaining := RoundSeconds;
    }

    /**
     * The state `joinGame` leaves: the player list becomes `Joined`, the
     * caller becomes game master when it is new, asked to be, and the room was
     * empty, and nothing else changes.
     */
    twostate predicate AfterJoin(caller: string, name: string, wantsMaster: bool)
      reads this
    {
      && players == Joined(old(players), caller, name, wantsMaster)
      && gameMaster ==
           (if !HasPlayer(old(players), caller) && wantsMaster && old(players) == [] then Some(caller)
            else old(gameMaster))
      && gameType == old(gameType) && RoundKept() && TimerKept()
    }

    /**
     * `joinGame`: a connection not yet in the room is appended; it becomes game
     * master only when it asked to and the room was empty. Returns whether the
     * caller is the game master afterwards.
     */
    method Join(caller: string, name: string, wantsMaster: bool) returns (isMaster: bool)
      requires Valid()
      modifies this
      ensures Valid() && AfterJoin(caller, name, wantsMaster)
      ensures isMaster <==> IsMaster(caller)
    {
      if !HasPlayer(players, caller) {
        var canBeMaster := wantsMaster && players == [];
        players := players + [Player(caller, name, canBeMaster, false)];
        if canBeMaster {
          gameMaster := Some(caller);
        }
      }
      isMaster := gameMaster == Some(caller);
    }

    /** The state `removePlayer` leaves: the game master drops every entry of `target`; nothing else changes. */
    twostate predicate AfterRemovePlayer(caller: string, target: string)
      reads this
    {
      && players == (if old(IsMaster(caller)) then Without(old(players), target) else old(players))
      && gameType == old(gameType) && gameMaster == old(gameMaster) && RoundKept() && TimerKept()
    }

    /** `removePlayer`. */
    method RemovePlayer(caller: string, target: string)
      requires Valid()
      modifies this
      ensures Valid() && AfterRemovePlayer(caller, target)
      ensures !old(IsMaster(caller)) ==> unchanged(this)
    {
      if IsMaster(caller) {
        WithoutDistinct(players, target);
        WithoutMembers(players, target);
        players := Without(players, target);
      }
    }

    /** `startGame` goes ahead: the game master asks, the game is not on, and two players are still in. */
    predicate StartsGame(caller: string)
      reads this
    {
      IsMaster(caller) && !gameStarted && ActiveCount(players) >= 2
    }

    /**
     * The state `startGame` leaves: when it goes ahead, round 1 starts with a
     * question for the number of active players, no answers and ten seconds;
     * otherwise nothing changes. Players and the countdown flags stay.
     */
    twostate predicate AfterStartGame(caller: string, bank: QuestionBank, pick: nat)
      reads this
    {
      && PlayersKept()
      && timerActive == old(timerActive) && timerPaused == old(timerPaused) && hasInterval == old(hasInterval)
      && if old(StartsGame(caller)) then
           && gameStarted && currentRound == 1 && answers == [] && timeRemaining == RoundSeconds
           && currentQuestion == SelectQuestion(bank, ActiveCount(players), pick)
         else
           RoundKept() && timeRemaining == old(timeRemaining)
    }

    /**
     * `startGame`: only the game master of a room not yet started can start
     * it, and only with at least two players still in the game; the first
     * round's question comes from the tier for that number of players.
     */
    method StartGame(caller: string, bank: QuestionBank, pick: nat) returns (reply: StartReply)
      requires Valid()
      modifies this
      ensures Valid() && AfterStartGame(caller, bank, pick)
      ensures reply == Ignored <==> !old(IsMaster(caller)) || old(gameStarted)
      ensures reply == NeedMorePlayers <==>
        old(IsMaster(caller)) && !old(gameStarted) && ActiveCount(players) < 2
      ensures reply == Started <==> old(StartsGame(caller))
      ensures reply != Started ==> unchanged(this)
    {
      if IsMaster(caller) && !gameStarted {
        var active := ActiveCount(players);
        if active < 2 {
          reply := NeedMorePlayers;
          return;
        }
        gameStarted := true;
        currentRound := 1;
        currentQuestion := SelectQuestion(bank, active, pick);
        answers := [];
        timeRemaining := RoundSeconds;
        reply := Started;
      } else {
        reply := Ignored;
      }
    }

    /** The state `startTimer` leaves: the countdown runs, unpaused, at ten seconds; nothing else changes. */
    twostate predicate AfterStartTimer()
      reads this
    {
      timerActive && !timerPaused && hasInterval && timeRemaining == RoundSeconds && PlayersKept() && RoundKept()
    }

    /** `startTimer`. */
    method StartTimer()
      requires Valid()
      modifies this
      ensures Valid() && AfterStartTimer()
    {
      timerActive := true;
      timerPaused := false;
      timeRemaining := RoundSeconds;
      hasInterval := true;
    }

    /** The state the delayed start leaves: the countdown starts if the game is on, else nothing changes. */
    twostate predicate AfterDelayedStart()
      reads this
    {
      if old(gameStarted) then AfterStartTimer() else Kept()
    }

    /** The delayed start after `startGame` and `nextRound`. */
    method StartTimerIfStarted()
      requires Valid()
      modifies this
      ensures Valid() && AfterDelayedStart()
      ensures !gameStarted ==> unchanged(this)
    {
      if gameStarted {
        StartTimer();
      }
    }

    /**
     * `submitAnswer` is accepted: the countdown runs unpaused, and the caller
     * is a player, not eliminated, who has not answered yet.
     */
    predicate Accepts(caller: string)
      reads this
    {
      && timerActive && !timerPaused
      && Find(players, caller).Some? && !Find(players, caller).value.eliminated
      && !HasAnswer(answers, caller)
    }

    /** The state `submitAnswer` leaves: an accepted answer is appended, trimmed, under the player's name. */
    twostate predicate AfterSubmitAnswer(caller: string, answer: string)
      reads this
    {
      && answers ==
           (if old(Accepts(caller)) then
              old(answers) + [Answer(Find(old(players), caller).value.name, Trim(answer), caller)]
            else old(answers))
      && PlayersKept() && TimerKept()
      && gameStarted == old(gameStarted) && currentRound == old(currentRound)
      && currentQuestion == old(currentQuestion)
    }

    /** `submitAnswer`; returns whether the answer was accepted. */
    method SubmitAnswer(caller: string, answer: string) returns (accepted: bool)
      requires Valid()
      modifies this
      ensures Valid() && AfterSubmitAnswer(caller, answer)
      ensures accepted <==> old(Accepts(caller))
      ensures HasAnswer(old(answers), caller) ==> answers == old(answers)
    {
      accepted := false;
      if timerActive && !timerPaused {
        var player := Find(players, caller);
        if player.Some? && !player.value.eliminated && !HasAnswer(answers, caller) {
          answers := answers + [Answer(player.value.name, Trim(answer), caller)];
          accepted := true;
        }
      }
    }

    /** The state `pauseTimer` leaves: the game master's pause sets the flag; nothing else changes. */
    twostate predicate AfterPauseTimer(caller: string)
      reads this
    {
      && timerPaused == (old(IsMaster(caller)) || old(timerPaused))
      && PlayersKept() && RoundKept()
      && timerActive == old(timerActive) && hasInterval == old(hasInterval) && timeRemaining == old(timeRemaining)
    }

    /** `pauseTimer`. */
    method PauseTimer(caller: string)
      requires Valid()
      modifies this
      ensures Valid() && AfterPauseTimer(caller)
      ensures !old(IsMaster(caller)) ==> unchanged(this)
    {
      if IsMaster(caller) {
        timerPaused := true;
      }
    }

    /** The state `resumeTimer` leaves: the game master's resume clears the flag; nothing else changes. */
    twostate predicate AfterResumeTimer(caller: string)
      reads this
    {
      && timerPaused == (!old(IsMaster(caller)) && old(timerPaused))
      && PlayersKept() && RoundKept()
      && timerActive == old(timerActive) && hasInterval == old(hasInterval) && timeRemaining == old(timeRemaining)
    }

    /** `resumeTimer`. */
    method ResumeTimer(caller: string)
      requires Valid()
      modifies this
      ensures Valid() && AfterResumeTimer(caller)
      ensures !old(IsMaster(caller)) ==> unchanged(this)
    {
      if IsMaster(caller) {
        timerPaused := false;
      }
    }

    /** The state `editQuestion` leaves: the game master replaces the question text; nothing else changes. */
    twostate predicate AfterEditQuestion(caller: string, newQuestion: string)
      reads this
    {
      && currentQuestion == (if old(IsMaster(caller)) then Some(newQuestion) else old(currentQuestion))
      && PlayersKept() && TimerKept()
      && gameStarted == old(gameStarted) && currentRound == old(currentRound) && answers == old(answers)
    }

    /** `editQuestion`. */
    method EditQuestion(caller: string, newQuestion: string)
      requires Valid()
      modifies this
      ensures Valid() && AfterEditQuestion(caller, newQuestion)
      ensures !old(IsMaster(caller)) ==> unchanged(this)
    {
      if IsMaster(caller) {
        currentQuestion := Some(newQuestion);
      }
    }

    /** The state `eliminatePlayer` leaves: the game master eliminates `target`, if present; nothing else changes. */
    twostate predicate AfterEliminatePlayer(caller: string, target: string)
      reads this
    {
      && players == (if old(IsMaster(caller)) then EliminatedById(old(players), target) else old(players))
      && gameType == old(gameType) && gameMaster == old(gameMaster) && RoundKept() && TimerKept()
    }

    /** `eliminatePlayer`; nobody is revived. */
    method EliminatePlayer(caller: string, target: string)
      requires Valid()
      modifies this
      ensures Valid() && AfterEliminatePlayer(caller, target)
      ensures !old(IsMaster(caller)) ==> unchanged(this)
      ensures NoRevival(old(players), players)
    {
      if IsMaster(caller) {
        SameRosterKeepsInvariants(players, EliminatedById(players, target), gameMaster);
        players := EliminatedById(players, target);
      }
    }

    /**
     * The state `nextRound` (the helper) leaves: the answers are cleared and
     * the countdown stopped; players, game master and `gameStarted` stay. With
     * at most one player still in the game the round, question and remaining
     * time stay; otherwise the round number goes up by one, a question is
     * drawn for the active count and the time is reset.
     */
    twostate predicate AfterNextRound(bank: QuestionBank, pick: nat)
      reads this
    {
      && answers == [] && !timerActive && PlayersKept()
      && gameStarted == old(gameStarted) && timerPaused == old(timerPaused) && hasInterval == old(hasInterval)
      && (var active := ActiveCount(players);
          if active <= 1 then
            && currentRound == old(currentRound)
            && currentQuestion == old(currentQuestion) && timeRemaining == old(timeRemaining)
          else
            && currentRound == old(currentRound) + 1
            && currentQuestion == SelectQuestion(bank, active, pick)
            && timeRemaining == RoundSeconds)
    }

    /**
     * AfterNextRound, with what `nextRound` announces: with at most one
     * player still in the game the game ends, its winner being the sole active
     * player if there is one; otherwise the new round and its question.
     */
    twostate predicate RoundAdvanced(bank: QuestionBank, pick: nat, outcome: RoundOutcome)
      reads this
    {
      && AfterNextRound(bank, pick)
      && (var active := ActiveCount(players);
          if active <= 1 then
            outcome.GameEnded? && (outcome.winner.Some? <==> active == 1)
          else
            outcome == RoundStarted(currentRound, currentQuestion))
      && (outcome.GameEnded? && outcome.winner.Some? ==>
            && outcome.winner.value in players && !outcome.winner.value.eliminated
            && forall p | p in players && !p.eliminated :: p == outcome.winner.value)
    }

    /** `nextRound` (the helper); see RoundAdvanced. */
    method NextRound(bank: QuestionBank, pick: nat) returns (outcome: RoundOutcome)
      requires Valid()
      modifies this
      ensures Valid()
      ensures RoundAdvanced(bank, pick, outcome)
    {
      if hasInterval {
        timerActive := false;
      }
      answers := [];
      var active := ActivePlayers(players);
      if |active| <= 1 {
        if |active| == 1 {
          SoleActivePlayer(players);
          assert active[0] in active;
          outcome := GameEnded(Some(active[0]));
        } else {
          outcome := GameEnded(None);
        }
        return;
      }
      currentRound := currentRound + 1;
      var question := SelectQuestion(bank, |active|, pick);
      currentQuestion := question;
      timeRemaining := RoundSeconds;
      outcome := RoundStarted(currentRound, question);
    }

    /** The state the `nextRound` and `skipQuestion` commands leave: the game master's moves on; anyone else's changes nothing. */
    twostate predicate AdvancedBy(caller: string, bank: QuestionBank, pick: nat)
      reads this
    {
      if old(IsMaster(caller)) then AfterNextRound(bank, pick) else Kept()
    }

    /** The `nextRound` command: the game master moves on to the next round. */
    method NextRoundCommand(caller: string, bank: QuestionBank, pick: nat) returns (outcome: Option<RoundOutcome>)
      requires Valid()
      modifies this
      ensures Valid() && AdvancedBy(caller, bank, pick)
      ensures outcome.Some? <==> old(IsMaster(caller))
      ensures outcome.None? ==> unchanged(this)
      ensures outcome.Some? ==> RoundAdvanced(bank, pick, outcome.value)
    {
      if IsMaster(caller) {
        var o := NextRound(bank, pick);
        outcome := Some(o);
      } else {
        outcome := None;
      }
    }

    /**
     * `skipQuestion`: the game master abandons the round without ending it (no
     * one is eliminated and no groups are reported) and moves to the next one.
     */
    method SkipQuestion(caller: string, bank: QuestionBank, pick: nat) returns (outcome: Option<RoundOutcome>)
      requires Valid()
      modifies this
      ensures Valid() && AdvancedBy(caller, bank, pick)
      ensures outcome.Some? <==> old(IsMaster(caller))
      ensures outcome.None? ==> unchanged(this)
      ensures outcome.Some? ==> RoundAdvanced(bank, pick, outcome.value)
    {
      if IsMaster(caller) {
        if hasInterval {
          timerActive := false;
        }
        var o := NextRound(bank, pick);
        outcome := Some(o);
      } else {
        outcome := None;
      }
    }

    /**
     * The state `resetGame` leaves: the game master brings everyone back into
     * the game and returns the room to round 0, not started, with no answers
     * and the countdown off at ten seconds; players, game master, question and
     * interval handle stay. Anyone else's reset changes nothing.
     */
    twostate predicate AfterResetGame(caller: string)
      reads this
    {
      if old(IsMaster(caller)) then
        && players == Revived(old(players))
        && currentRound == 0 && !gameStarted && answers == []
        && !timerActive && !timerPaused && timeRemaining == RoundSeconds
        && gameType == old(gameType) && gameMaster == old(gameMaster)
        && currentQuestion == old(currentQuestion) && hasInterval == old(hasInterval)
      else
        Kept()
    }

    /** `resetGame`. */
    method ResetGame(caller: string)
      requires Valid()
      modifies this
      ensures Valid() && AfterResetGame(caller)
      ensures !old(IsMaster(caller)) ==> unchanged(this)
    {
      if IsMaster(caller) {
        var ps := players;
        var i := 0;
        while i < |ps|
          invariant 0 <= i <= |ps| == |players|
          invariant ps[..i] == Revived(players)[..i]
          invariant ps[i..] == players[i..]
        {
          ps := ps[i := ps[i].(eliminated := false)];
          i := i + 1;
        }
        assert ps == Revived(players);
        SameRosterKeepsInvariants(players, ps, gameMaster);
        players := ps;
        currentRound := 0;
        gameStarted := false;
        answers := [];
        timerActive := false;
        timerPaused := false;
        timeRemaining := RoundSeconds;
      }
    }

    /**
     * The state the room's part of `disconnect` leaves: players and game
     * master become `AfterDisconnect`; nothing else changes.
     */
    twostate predicate AfterLeave(conn: string)
      reads this
    {
      && (players, gameMaster) == AfterDisconnect(old(players), old(gameMaster), conn)
      && gameType == old(gameType) && RoundKept() && TimerKept()
    }

    /** The room's part of `disconnect`; returns whether the room is now empty. */
    method Leave(conn: string) returns (empty: bool)
      requires Valid()
      modifies this
      ensures Valid() && AfterLeave(conn)
      ensures empty <==> players == []
    {
      AfterDisconnectKeepsInvariants(players, gameMaster, conn);
      var r := AfterDisconnect(players, gameMaster, conn);
      players := r.0;
      gameMaster := r.1;
      empty := players == [];
    }

    /**
     * `endRound`: every player still in the game who has not answered is
     * eliminated, and the answers are grouped by their key.
     */
    method EndRound() returns (groups: Groups)
      requires Valid()
      modifies this
      ensures Valid()
      ensures players == AfterRoundEnd(old(players), answers)
      ensures groups == GroupAnswers(answers) && Reports(groups, answers)
      ensures gameType == old(gameType) && gameMaster == old(gameMaster) && RoundKept() && TimerKept()
    {
      var ps := players;
      var i := 0;
      while i < |ps|
        invariant 0 <= i <= |ps| == |players|
        invariant ps[..i] == AfterRoundEnd(players, answers)[..i]
        invariant ps[i..] == players[i..]
      {
        if !ps[i].eliminated && !HasAnswer(answers, ps[i].id) {
          ps := ps[i := ps[i].(eliminated := true)];
        }
        i := i + 1;
      }
      assert ps == AfterRoundEnd(players, answers);
      SameRosterKeepsInvariants(players, ps, gameMaster);
      players := ps;
      groups := GroupAnswers(answers);
    }

    /**
     * The state one second of the countdown leaves, with its report: nothing
     * happens unless the countdown runs unpaused; then one second is taken
     * off and, when none is left, the countdown stops and the round ends:
     * silent players are eliminated and the answers' groups are reported.
     */
    twostate predicate AfterTick(new report: Option<Groups>)
      reads this
    {
      if !old(timerActive) || old(timerPaused) then
        Kept() && report.None?
      else
        && timeRemaining == old(timeRemaining) - 1
        && gameType == old(gameType) && gameMaster == old(gameMaster) && RoundKept()
        && timerPaused == old(timerPaused) && hasInterval == old(hasInterval)
        && if timeRemaining <= 0 then
             && !timerActive && players == AfterRoundEnd(old(players), answers)
             && report == Some(GroupAnswers(answers))
           else
             timerActive && players == old(players) && report.None?
    }

    /** One second of the countdown (the interval body of `startTimer`). */
    method Tick() returns (report: Option<Groups>)
      requires Valid()
      modifies this
      ensures Valid() && AfterTick(report)
      ensures !old(timerActive) || old(timerPaused) ==> unchanged(this)
      ensures report.Some? <==> old(timerActive) && !old(timerPaused) && old(timeRemaining) == 1
      ensures report.Some? ==> Reports(report.value, answers)
    {
      report := None;
      if !timerActive {
        return;
      }
      if !timerPaused {
        timeRemaining := timeRemaining - 1;
        if timeRemaining <= 0 {
          timerActive := false;
          var groups := EndRound();
          report := Some(groups);
        }
      }
    }
  }
}
