/**
 * A room's player list (`room.players`) and the list operations the handlers
 * apply to it: `find`, joining, the `filter`s of removal, disconnection and
 * the active count, and the flag updates of elimination, round end and reset.
 */
module Players {
  import opened Wrappers
  import opened Grouping

  /** One entry of `room.players`. */
  datatype Player = Player(id: string, name: string, isGameMaster: bool, eliminated: bool)

  /** No connection id appears twice. */
  predicate DistinctIds(ps: seq<Player>) {
    forall i, j | 0 <= i < j < |ps| :: ps[i].id != ps[j].id
  }

  /** Only the game master carries the game-master flag: a flagged player's id is `gameMaster`. */
  predicate MasterFlagsAgree(ps: seq<Player>, gameMaster: Option<string>) {
    forall p | p in ps && p.isGameMaster :: gameMaster == Some(p.id)
  }

  /** With distinct ids, at most one player carries the game-master flag. */
  lemma {:induction false} AtMostOneMaster(ps: seq<Player>, gameMaster: Option<string>)
    requires DistinctIds(ps) && MasterFlagsAgree(ps, gameMaster)
    ensures forall i, j | 0 <= i < j < |ps| :: !(ps[i].isGameMaster && ps[j].isGameMaster)
  {
    forall i, j | 0 <= i < j < |ps| && ps[i].isGameMaster
      ensures !ps[j].isGameMaster
    {
      assert ps[i] in ps && ps[j] in ps;
      assert gameMaster == Some(ps[i].id);
    }
  }

  /** The position of the first player with connection id `id`, or `|ps|` (`players.find`). */
  function IndexOf(ps: seq<Player>, id: string): (i: nat)
    ensures i <= |ps|
    ensures i < |ps| ==> ps[i].id == id
    ensures forall j | 0 <= j < i :: ps[j].id != id
  {
    if ps == [] then 0
    else if ps[0].id == id then 0
    else 1 + IndexOf(ps[1..], id)
  }

  /** Some player has connection id `id`. */
  predicate HasPlayer(ps: seq<Player>, id: string) {
    IndexOf(ps, id) < |ps|
  }

  /** `players.find(p => p.id === id)`. */
  function Find(ps: seq<Player>, id: string): (r: Option<Player>)
    ensures r.Some? <==> exists p | p in ps :: p.id == id
    ensures r.Some? ==> r.value in ps && r.value.id == id
  {
    var i := IndexOf(ps, id);
    if i < |ps| then Some(ps[i]) else None
  }

  /**
   * The player list after `joinGame` by connection `id`: a connection already
   * present adds nothing; otherwise it is appended, flagged as game master
   * only when it asked to be and the list was empty.
   */
  function Joined(ps: seq<Player>, id: string, name: string, wantsMaster: bool): (r: seq<Player>)
    ensures HasPlayer(r, id)
    ensures |ps| <= |r| <= |ps| + 1 && r[..|ps|] == ps
    ensures HasPlayer(ps, id) ==> r == ps
    ensures forall p | p in r && p !in ps ::
      (p.id == id && p.name == name && !p.eliminated && (p.isGameMaster <==> wantsMaster && ps == []))
    ensures DistinctIds(ps) ==> DistinctIds(r)
  {
    if HasPlayer(ps, id) then ps
    else
      var r := ps + [Player(id, name, wantsMaster && ps == [], false)];
      assert r[|ps|].id == id;
      r
  }

  /** `players.filter(p => p.id !== id)`. */
  function Without(ps: seq<Player>, id: string): (r: seq<Player>)
    ensures |r| <= |ps|
  {
    if ps == [] then []
    else (if ps[0].id == id then [] else [ps[0]]) + Without(ps[1..], id)
  }

  /** Removal keeps exactly the players with another connection id. */
  lemma {:induction false} WithoutMembers(ps: seq<Player>, id: string)
    ensures forall p :: p in Without(ps, id) <==> p in ps && p.id != id
  {
    if ps != [] {
      WithoutMembers(ps[1..], id);
      assert ps == [ps[0]] + ps[1..];
    }
  }

  /**
   * Removing a present connection takes out exactly its entry and keeps the
   * others in their original order.
   */
  lemma {:induction false} WithoutRemovesOne(ps: seq<Player>, id: string, k: nat)
    requires DistinctIds(ps) && k < |ps| && ps[k].id == id
    ensures Without(ps, id) == ps[..k] + ps[k + 1..]
  {
    var tail := ps[1..];
    DistinctTail(ps);
    if k == 0 {
      WithoutFirst(ps, id);
      assert ps[..0] + ps[1..] == tail;
    } else {
      WithoutRemovesOne(tail, id, k - 1);
      assert ps[..k] == [ps[0]] + tail[..k - 1];
      assert ps[k + 1..] == tail[k..];
      calc {
        Without(ps, id);
        [ps[0]] + Without(tail, id);
        [ps[0]] + (tail[..k - 1] + tail[k..]);
        ([ps[0]] + tail[..k - 1]) + tail[k..];
        ps[..k] + ps[k + 1..];
      }
    }
  }

  /** The tail of a list with distinct ids has distinct ids and lacks the head's id. */
  lemma DistinctTail(ps: seq<Player>)
    requires DistinctIds(ps) && ps != []
    ensures DistinctIds(ps[1..])
    ensures forall p | p in ps[1..] :: p.id != ps[0].id
  {
    var tail := ps[1..];
    forall j | 0 <= j < |tail| ensures tail[j].id != ps[0].id {
      assert tail[j] == ps[j + 1];
    }
  }

  /** Removing the connection at the head of a list with distinct ids leaves its tail. */
  lemma WithoutFirst(ps: seq<Player>, id: string)
    requires DistinctIds(ps) && ps != [] && ps[0].id == id
    ensures Without(ps, id) == ps[1..]
  {
    DistinctTail(ps);
    WithoutAbsent(ps[1..], id);
  }

  /** Removing a connection that is not present changes nothing. */
  lemma {:induction false} WithoutAbsent(ps: seq<Player>, id: string)
    requires forall p | p in ps :: p.id != id
    ensures Without(ps, id) == ps
  {
    if ps != [] {
      WithoutAbsent(ps[1..], id);
    }
  }

  /** Removal keeps connection ids distinct. */
  lemma {:induction false} WithoutDistinct(ps: seq<Player>, id: string)
    requires DistinctIds(ps)
    ensures DistinctIds(Without(ps, id))
  {
    if ps != [] {
      WithoutDistinct(ps[1..], id);
      WithoutMembers(ps[1..], id);
      DistinctTail(ps);
      var rest := Without(ps[1..], id);
      assert forall p | p in rest :: p.id != ps[0].id;
    }
  }

  /** `players.filter(p => !p.eliminated)`: the players still in the game. */
  function ActivePlayers(ps: seq<Player>): (r: seq<Player>)
    ensures |r| <= |ps|
    ensures forall p :: p in r <==> p in ps && !p.eliminated
  {
    if ps == [] then []
    else (if ps[0].eliminated then [] else [ps[0]]) + ActivePlayers(ps[1..])
  }

  /** The number of players still in the game. */
  function ActiveCount(ps: seq<Player>): nat {
    |ActivePlayers(ps)|
  }

  /** When exactly one player is active, that player is the only one not eliminated. */
  lemma {:induction false} SoleActivePlayer(ps: seq<Player>)
    requires ActiveCount(ps) == 1
    ensures forall p | p in ps && !p.eliminated :: p == ActivePlayers(ps)[0]
  {
    var r := ActivePlayers(ps);
    forall p | p in ps && !p.eliminated ensures p == r[0] {
      assert p in r;
    }
  }

  /** When no player is active, every player is eliminated. */
  lemma {:induction false} NoActivePlayer(ps: seq<Player>)
    requires ActiveCount(ps) == 0
    ensures forall p | p in ps :: p.eliminated
  {
  }

  /** The answers contain an entry of connection `id` (`answers[id]` is set). */
  predicate HasAnswer(answers: seq<Answer>, id: string) {
    exists a | a in answers :: a.playerId == id
  }

  /** No connection has two entries in the answers. */
  predicate DistinctAnswerIds(answers: seq<Answer>) {
    forall i, j | 0 <= i < j < |answers| :: answers[i].playerId != answers[j].playerId
  }

  /** `a` and `b` list the same players in the same order; only `eliminated` may differ. */
  predicate SameRoster(a: seq<Player>, b: seq<Player>) {
    && |a| == |b|
    && forall i | 0 <= i < |a| ::
         a[i].id == b[i].id && a[i].name == b[i].name && a[i].isGameMaster == b[i].isGameMaster
  }

  /** Same roster, and nobody who was eliminated in `before` is back in `after`. */
  predicate NoRevival(before: seq<Player>, after: seq<Player>) {
    SameRoster(before, after) && forall i | 0 <= i < |before| :: before[i].eliminated ==> after[i].eliminated
  }

  /** A roster that only changes `eliminated` flags keeps ids distinct and master flags in agreement. */
  lemma SameRosterKeepsInvariants(a: seq<Player>, b: seq<Player>, gameMaster: Option<string>)
    requires SameRoster(a, b) && DistinctIds(a) && MasterFlagsAgree(a, gameMaster)
    ensures DistinctIds(b) && MasterFlagsAgree(b, gameMaster)
  {
    forall p | p in b && p.isGameMaster ensures gameMaster == Some(p.id) {
      var i :| 0 <= i < |b| && b[i] == p;
      assert a[i] in a;
    }
  }

  /** One player at the end of a round: not yet eliminated and no answer means eliminated. */
  function AutoEliminated(p: Player, answers: seq<Answer>): Player {
    if !p.eliminated && !HasAnswer(answers, p.id) then p.(eliminated := true) else p
  }

  /**
   * The player list after `endRound`: every player has either answered or is
   * eliminated, those who answered are untouched, and no one is revived.
   */
  function AfterRoundEnd(ps: seq<Player>, answers: seq<Answer>): (r: seq<Player>)
    ensures NoRevival(ps, r)
    ensures forall i | 0 <= i < |r| :: r[i].eliminated || HasAnswer(answers, r[i].id)
    ensures forall i | 0 <= i < |r| && HasAnswer(answers, ps[i].id) :: r[i] == ps[i]
  {
    seq(|ps|, i requires 0 <= i < |ps| => AutoEliminated(ps[i], answers))
  }

  /** The player list after `resetGame`: nobody is eliminated, nothing else changes. */
  function Revived(ps: seq<Player>): (r: seq<Player>)
    ensures SameRoster(ps, r)
    ensures forall p | p in r :: !p.eliminated
  {
    seq(|ps|, i requires 0 <= i < |ps| => ps[i].(eliminated := false))
  }

  /**
   * The player list after `eliminatePlayer(id)`: the first player with that id,
   * if any, is eliminated, and every other entry is unchanged.
   */
  function EliminatedById(ps: seq<Player>, id: string): (r: seq<Player>)
    ensures NoRevival(ps, r)
    ensures HasPlayer(ps, id) ==> r[IndexOf(ps, id)].eliminated
    ensures forall i | 0 <= i < |ps| && i != IndexOf(ps, id) :: r[i] == ps[i]
  {
    var i := IndexOf(ps, id);
    if i < |ps| then ps[i := ps[i].(eliminated := true)] else ps
  }

  /** Eliminating the same player twice is the same as eliminating it once. */
  lemma EliminateIdempotent(ps: seq<Player>, id: string)
    ensures EliminatedById(EliminatedById(ps, id), id) == EliminatedById(ps, id)
  {
    var r := EliminatedById(ps, id);
    IndexOfSameRoster(ps, r, id);
  }

  /** With distinct ids, elimination touches exactly the player with that id. */
  lemma EliminateOnlyTarget(ps: seq<Player>, id: string)
    requires DistinctIds(ps)
    ensures var r := EliminatedById(ps, id);
      forall i | 0 <= i < |ps| :: r[i] == if ps[i].id == id then ps[i].(eliminated := true) else ps[i]
  {
  }

  /** Lists with the same roster find a connection at the same position. */
  lemma {:induction false} IndexOfSameRoster(a: seq<Player>, b: seq<Player>, id: string)
    requires SameRoster(a, b)
    ensures IndexOf(a, id) == IndexOf(b, id)
  {
    if a != [] && a[0].id != id {
      IndexOfSameRoster(a[1..], b[1..], id);
    }
  }

  /**
   * The player list and game master after the disconnection of `id`
   * (`disconnect`): its entry goes, and when it was the game master and
   * others remain, the first remaining player is promoted.
   */
  function AfterDisconnect(ps: seq<Player>, gameMaster: Option<string>, id: string)
    : (r: (seq<Player>, Option<string>))
    ensures var rest := Without(ps, id);
      && |r.0| == |rest|
      && (forall i | 0 < i < |rest| :: r.0[i] == rest[i])
      && (rest != [] ==> r.0[0].(isGameMaster := rest[0].isGameMaster) == rest[0])
      && (if gameMaster == Some(id) && rest != [] then
            r.1 == Some(rest[0].id) && r.0[0].isGameMaster
          else
            r.0 == rest && r.1 == gameMaster)
  {
    var rest := Without(ps, id);
    if gameMaster == Some(id) && |rest| > 0 then
      (rest[0 := rest[0].(isGameMaster := true)], Some(rest[0].id))
    else
      (rest, gameMaster)
  }

  /**
   * Disconnection keeps ids distinct and keeps the game-master flag on the
   * game master alone.
   */
  lemma {:induction false} AfterDisconnectKeepsInvariants(ps: seq<Player>, gameMaster: Option<string>, id: string)
    requires DistinctIds(ps) && MasterFlagsAgree(ps, gameMaster)
    ensures var r := AfterDisconnect(ps, gameMaster, id);
      DistinctIds(r.0) && MasterFlagsAgree(r.0, r.1)
  {
    var rest := Without(ps, id);
    WithoutDistinct(ps, id);
    WithoutMembers(ps, id);
    var r := AfterDisconnect(ps, gameMaster, id);
    if gameMaster == Some(id) && rest != [] {
      forall i | 0 < i < |r.0| ensures !r.0[i].isGameMaster {
        assert rest[i] in rest;
      }
    }
  }
}
