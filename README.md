# Odd One In: the server's room state machine

This project models the game server of "Odd One In" in Dafny. Players join a
room. A joiner becomes game master only if they ask to and the room is empty
at that moment; if the first joiner does not ask, the room has no game master,
so its game can never start. The game master starts the
game, and each round poses a question chosen by how many players are still in
the game. A ten-second countdown then runs. When it ends, every player who is
still in but gave no answer is eliminated. The answers are grouped by their
case- and space-insensitive key into duplicate groups and unique answers. The
game master controls the countdown (pause, resume, skip), edits the question,
eliminates or removes players, moves to the next round and resets the game.
The game ends only when the game master moves to the next round (by the next
round or skip command) while at most one player is still in; the end of a
round alone never ends the game, and `gameStarted` stays true afterwards.

Modules, in dependency order:

- `Wrappers`: `Option`.
- `Text`: JavaScript's `trim` and `toLowerCase`, and the grouping key
  `toLowerCase().trim()`.
- `Questions`: the four question tiers and `selectQuestion`. The random draw
  is a parameter `pick`.
- `Grouping`: a round's answers and `groupAnswers`. It is specified by the
  predicate `Reports`. It also has the as-written variant of the finding below.
- `Players`: the player list, and the list operations of every handler as
  functions on `seq<Player>`.
- `Rooms`: class `Room`, one entry of `gameRooms`. It has one method per
  socket handler, plus `StartTimer`, `Tick` (the interval body), `EndRound`
  and `NextRound`. `Room.Valid` is the invariant that every method keeps: ids
  are distinct, only the game master carries the flag, each connection has at
  most one answer, and a running countdown has between 1 and 10 seconds left.
- `Registry`: class `Server`, holding the `gameRooms` table and each
  connection's `socket.roomId`. Commands are dispatched to the room they name.
  Rooms are created on first join. A room is deleted only when a disconnect
  leaves it empty; a room emptied by `removePlayer` stays in the table.
- `Scenarios`: short runs of the handlers, each stating its exact outcome.

A round's `answers` object is modelled as a sequence in submission order. The
object's keys are socket ids, which are not integer-like, so JavaScript
enumerates them in insertion order. The keys of `groupAnswers`' own map are
the answers' keys, so `Object.entries` lists them in the order JavaScript
gives: keys that are array indices (canonical numerals below 2^32 - 1) first,
in ascending numeric order, then the other keys in order of first appearance.
A player entry is a value in
`room.players`; the source never shares player objects between rooms. The
sender of a command is the `caller` (or `conn`) id. Broadcasts to the room are
not modelled. Replies that carry information (`isGameMaster`, `gameStarted`,
the start error) are returned as results.

## Model

| member | source | states |
|---|---|---|
| Text.Trim | server.js:178 | `trim`; characterised by `TrimSpec`, `TrimIdempotent` and `KeyIgnoresSurroundingSpace` |
| Text.Lower | server.js:381 | `toLowerCase`; characterised by `LowerSpec` (each capital becomes its small letter), `LowerIdempotent` and `KeyIgnoresCase` |
| Text.Key | server.js:381 | the grouping key `toLowerCase().trim()`; characterised by `KeyIgnoresCase`, `KeyIgnoresSurroundingSpace` and `CaseAndSpaceExample` |
| Text.TrimSpec | server.js:178 | `trim` removes only white space, from both ends, and leaves neither end on a white-space character |
| Text.TrimIdempotent | server.js:178 | trimming an answer that is already trimmed changes nothing |
| Text.LowerSpec | server.js:381 | lower-casing keeps the length, turns each capital into its small letter (32 code points later), leaves no capital, keeps white space where it was and leaves other characters alone |
| Text.LowerIdempotent | server.js:381 | lower-casing twice equals lower-casing once |
| Text.KeyIgnoresCase | server.js:381 | two answers that differ only where one has a capital and the other its small letter have the same key |
| Text.KeyIgnoresSurroundingSpace | server.js:381 | the grouping key of the stored (trimmed) answer equals the key of the raw answer |
| Text.CaseAndSpaceExample | server.js:381 | "Cat " and "cat" have the same key, "cat" |
| Questions.TierFor | server.js:302-310 | the broad tier is chosen iff there are at least 10 players, medium or broader iff at least 5, narrow or broader iff at least 3 |
| Questions.TierMonotone | server.js:302-310 | more players never get a narrower tier |
| Questions.TierQuestions | server.js:303-309 | the tier's `questions` array when present (an empty one is still truthy), else the tier's one-question fallback; characterised by `SelectQuestion`, `FallbackAlwaysAsks` and `DefaultBankAsks` |
| Questions.DefaultBankAsks | server.js:41-46 | with the built-in bank every tier holds three questions, a question is always drawn, and fewer than three players get one of the tie-breakers |
| Questions.SelectQuestion | server.js:300-313 | a question is drawn iff the chosen tier's list is non-empty, and it is a question of that tier |
| Questions.EveryQuestionReachable | server.js:312 | every question of the chosen tier is drawn by some random pick |
| Questions.FallbackAlwaysAsks | server.js:303-309 | when the bank has no tiers, the one-question fallbacks always yield a question |
| Grouping.AddAnswer | server.js:381-385 | files one answer under its key, appending a new entry for a new key; characterised by `AddAnswerKeepsBuckets` |
| Grouping.AddAnswerKeepsBuckets | server.js:380-386 | filing one more answer keeps the map exact: keys distinct, each entry holds exactly the answers with its key, every answer has an entry |
| Grouping.Buckets | server.js:378-386 | the map built by the first loop is exact for all the answers |
| Grouping.IndexBuckets | server.js:388 | the entries whose key is an array index, and exactly those |
| Grouping.NamedBuckets | server.js:388 | the entries whose key is not an array index, and exactly those |
| Grouping.InsertByIndex | server.js:388 | inserting one entry adds exactly that entry (one more occurrence in the multiset) |
| Grouping.InsertKeepsSorted | server.js:388 | inserting into a list sorted by index value keeps it sorted |
| Grouping.SortByIndex | server.js:388 | sorting by index value is a permutation (same multiset of entries) |
| Grouping.SortIsSorted | server.js:388 | the sorted list is in ascending index order |
| Grouping.IndexNamedPartition | server.js:388 | the array-index entries and the other entries together are all the entries, as multisets |
| Grouping.Entries | server.js:388 | `Object.entries` lists a permutation of the map's entries |
| Grouping.EntriesOrder | server.js:388 | `Object.entries` lists the array-index keys first, in ascending numeric order, then the other keys in order of first appearance |
| Grouping.EntriesKeepBuckets | server.js:378-388 | listing the exact map in entry order keeps it exact |
| Grouping.Split | server.js:388-398 | walks the entries in order; characterised by `SplitSound`, `SplitComplete`, `SplitDuplicatesDistinct`, `SplitUniqueDistinct` and `SplitReports` |
| Grouping.SplitGroupsInOrder | server.js:388-398 | the duplicate groups are listed in the order of their entries, each coming from an entry |
| Grouping.SplitUniqueInOrder | server.js:388-398 | the unique answers are listed in the order of their entries, each coming from an entry |
| Grouping.SplitSound | server.js:388-398 | every duplicate group comes from a map entry of two or more answers, and every unique answer is the sole answer of an entry |
| Grouping.SplitComplete | server.js:388-398 | every entry of two or more answers is a duplicate group, and the answer of every single-answer entry is unique |
| Grouping.SplitDuplicatesDistinct | server.js:388-398 | no two duplicate groups share a key |
| Grouping.SplitUniqueDistinct | server.js:388-398 | no two unique answers share a key |
| Grouping.SplitReports | server.js:378-398 | splitting the exact map yields a correct report (`Reports`) |
| Grouping.GroupAnswers | server.js:372-401 | the map's entries are split in `Object.entries` order (see `EntriesOrder` and `GroupAnswersOrder`), and the result is a correct report. Each duplicate group holds all the answers with its key (at least two), and `count` is their number. A unique answer is the only one with its key. No key is reported twice. An answer is unique iff it is alone with its key; otherwise its key has a group |
| Grouping.GroupAnswersOrder | server.js:372-401 | among the duplicate groups, and among the unique answers, array-index keys come before every other key and ascend |
| Grouping.EveryAnswerInOneGroup | server.js:372-401 | in a correct report every answer is unique iff it is in no duplicate group, and it is in at most one duplicate group |
| Grouping.SameGroupIffSameKey | server.js:372-401 | in a correct report two different answers share a duplicate group iff their keys are equal |
| Grouping.CatsAndDogExample | server.js:372-401 | "cat", "Cat" and "dog" give one duplicate group "cat" of two and one unique answer "dog" |
| Grouping.NamedKeysFirst | server.js:388 | the entries "cat" then "dog", neither an array index, keep their order |
| Grouping.NumbersFirstExample | server.js:372-401 | answers "1" then "0" are both unique and are reported "0" first, because array-index keys are listed in ascending order |
| Grouping.BucketsAsWritten | server.js:378-386 | the loop as written throws iff some key names a property every object inherits; otherwise it builds the exact map |
| Grouping.GroupAnswersAsWritten | server.js:372-401 | `groupAnswers` as written fails iff some key is inherited; otherwise it agrees with `GroupAnswers` |
| Grouping.ConstructorAnswerThrows | server.js:382-385 | a single answer "Constructor", from any player, makes the written grouping throw |
| Players.AtMostOneMaster | server.js:78-91 | with distinct ids and flags that agree with `gameMaster`, at most one player carries the game-master flag |
| Players.Find | server.js:174 | `find` succeeds iff a player has the id, and returns such a player |
| Players.Joined | server.js:76-92 | a new connection is appended with its name, not eliminated, and flagged iff it asked and the list was empty. A connection already present changes nothing. Ids stay distinct |
| Players.Without | server.js:117 | the `filter` by id; never longer than the list, and characterised by `WithoutMembers`, `WithoutRemovesOne` and `WithoutDistinct` |
| Players.IndexOf | server.js:76 | the position of the first player with the id, or the length when there is none |
| Players.WithoutMembers | server.js:117 | removal keeps exactly the players with another id |
| Players.WithoutRemovesOne | server.js:279 | removing a present id removes exactly its entry and keeps the others in order |
| Players.WithoutDistinct | server.js:279 | removal keeps ids distinct |
| Players.ActivePlayers | server.js:136 | the active players are exactly the players not eliminated |
| Players.SoleActivePlayer | server.js:416-418 | with one active player, that player is the only one not eliminated |
| Players.NoActivePlayer | server.js:416-418 | with no active player, every player is eliminated |
| Players.AfterRoundEnd | server.js:353-357 | after a round every player is eliminated or has answered; those who answered are untouched; no one is revived and the roster is kept |
| Players.Revived | server.js:259-261 | after a reset nobody is eliminated and the roster is unchanged |
| Players.EliminatedById | server.js:229-231 | the player with the id (if any) is eliminated; every other entry is unchanged; no one is revived |
| Players.EliminateIdempotent | server.js:229-231 | eliminating the same player twice equals eliminating them once |
| Players.EliminateOnlyTarget | server.js:229-231 | with distinct ids, exactly the entries with the target id change, and only their flag |
| Players.AfterDisconnect | server.js:279-284 | the leaver's entry goes. If they were game master and others remain, the first remaining player becomes game master and gets the flag. Otherwise list and master are the filtered list and the old master |
| Players.AfterDisconnectKeepsInvariants | server.js:279-284 | disconnection keeps ids distinct and the flag on the game master alone |
| Rooms.Room.constructor | server.js:59-71 | a new room: empty, no game master, not started, round 0, no question, no answers, timer off at ten seconds |
| Rooms.Room.Join | server.js:76-92 | `AfterJoin`: the player list becomes `Joined(...)`. The caller becomes game master iff it was new, asked, and the room was empty. Nothing else changes. The result says whether the caller is game master |
| Rooms.Room.RemovePlayer | server.js:116-124 | only the game master removes; every entry with the target id goes; nothing else changes |
| Rooms.Room.StartGame | server.js:135-149 | ignored unless the game master sends it before the game starts. With fewer than two active players the reply is an error and nothing changes. Otherwise round 1 starts with a question for the active count, no answers and ten seconds |
| Rooms.Room.StartTimer | server.js:315-327 | the countdown runs, unpaused, at ten seconds; nothing else changes |
| Rooms.Room.StartTimerIfStarted | server.js:158-162 | the delayed start runs the countdown iff the game is on |
| Rooms.Room.SubmitAnswer | server.js:173-181 | accepted iff the countdown runs unpaused and the sender is a non-eliminated player who has not answered. An accepted answer is appended, trimmed, under the player's name. Nothing else changes |
| Rooms.Room.PauseTimer | server.js:188-194 | the game master pauses; anyone else changes nothing |
| Rooms.Room.ResumeTimer | server.js:196-202 | the game master resumes; anyone else changes nothing |
| Rooms.Room.SkipQuestion | server.js:204-212 | only the game master skips. The countdown stops and the room advances as `nextRound` does, with no one eliminated |
| Rooms.Room.EditQuestion | server.js:215-222 | the game master replaces the question; nothing else changes |
| Rooms.Room.EliminatePlayer | server.js:224-243 | the game master eliminates the target's entry; no one is revived; nothing else changes |
| Rooms.Room.NextRound | server.js:403-439 | answers are cleared and the countdown stops. With at most one active player the game ends, the winner being the sole active player if any. Otherwise the round number goes up by one, a question is drawn for the active count and the time is reset to ten seconds |
| Rooms.Room.NextRoundCommand | server.js:245-250 | only the game master moves to the next round, with `NextRound`'s effect |
| Rooms.Room.ResetGame | server.js:252-271 | the game master revives everyone and returns the room to the lobby state (round 0, not started, no answers, timer off at ten seconds), keeping players and game master |
| Rooms.Room.Leave | server.js:279-284 | the room's players and game master become `AfterDisconnect(...)`; the result says whether the room is empty |
| Rooms.Room.EndRound | server.js:348-359 | silent active players are eliminated and the result is the grouping of the round's answers (in entry order), a correct report; nothing else changes |
| Rooms.Room.Tick | server.js:329-345 | `AfterTick`: nothing happens unless the countdown runs unpaused. Otherwise one second passes. The round ends exactly when the last second runs out: the countdown stops, silent players are eliminated, and the report is the grouping of the answers, in entry order |
| Registry.Server.constructor | server.js:33 | the server starts with no rooms and no connections |
| Registry.Server.RoomFor | server.js:58-74 | an existing room is reused; otherwise a new room is added under the id, empty, with no game master, in the never-started state (round 0, no question, no answers, timer off at ten seconds), of the given game type |
| Registry.Server.Join | server.js:53-109 | an existing room is left in `AfterJoin`'s state. A new room is created in the never-started state with the joiner as its only player, game master iff they asked. Other rooms are unchanged, and the connection's room becomes the id |
| Registry.Server.JoinExisting | server.js:74-108 | the named room is left in `AfterJoin`'s state, and the connection's room is recorded |
| Registry.Server.LeavesRoom | server.js:276-278 | the connection recorded a non-empty room id (an empty id is falsy) whose room still exists; used by `Disconnect` |
| Registry.Server.Disconnect | server.js:273-296 | when `LeavesRoom` holds, that room is left in `AfterLeave`'s state (players and game master become `AfterDisconnect(...)`, nothing else changes) and is deleted if left empty. All other rooms are unchanged and the connection is forgotten |
| Registry.Dispatch | server.js:111-271 | the named room is left in the post-state of the command's handler (`Obeys`), and is unchanged by a non-master's command other than an answer |
| Registry.Server.Handle | server.js:111-271 | a command reaches only the room it names, does nothing when that room does not exist, leaves that room in its handler's post-state (`Obeys`), and has no effect from a non-master except an answer |
| Registry.Server.TimerStartFires | server.js:158-162 | the named room is left in `AfterDelayedStart`'s state (its countdown starts iff its game is on, else nothing changes); no other room is touched |
| Registry.Server.TickFires | server.js:329-345 | the named room is left in `Tick`'s post-state (`AfterTick`: the no-op case, the decrement, and at the last second the eliminations and the report); no other room is touched, and without the room there is no report |
| Scenarios.TrimCatExample | server.js:178 | " cat " is stored as "cat" |
| Scenarios.FirstAnswerStands | server.js:173-181 | a player's first answer is stored trimmed and a second one is refused |
| Scenarios.NoAnswerOutsideCountdown | server.js:173 | answers before the countdown or while it is paused are refused, and accepted once it is resumed |
| Scenarios.SilentPlayerEliminated | server.js:329-357 | nine ticks report nothing. The tenth ends the round, with the silent player eliminated and the other's answer unique. A further tick does nothing |
| Scenarios.BobOutAfterRound | server.js:353-357 | with one of two players answering, the round's end eliminates exactly the other |
| Scenarios.SingleAnswerGroups | server.js:388-398 | a single answer is reported as unique, with no duplicate group |
| Scenarios.LastPlayerWins | server.js:414-421 | with one player left active, the next round ends the game with that player as winner, and the game stays marked as started |
| Scenarios.OnlyMasterSkips | server.js:204-206 | a skip from a non-master changes nothing |
| Scenarios.MasterHandOff | server.js:276-293 | when the game master disconnects, the next player becomes game master; when the last player leaves, the room is deleted |

## Left out

- HTTP serving, static files, routes and the socket transport are not modelled. Neither are room broadcasts (`io.to(...).emit`) and `console.log`. Handlers return only the replies that carry information.
- The questions file is not read. The bank is a parameter (`QuestionBank`), and `DefaultBank` holds the built-in questions used when the file is missing.
- `Math.random` is the parameter `pick`. The index `Math.floor(random * n)` is written as `pick % n`: every index is reachable, but the distribution is not modelled.
- Timers are not scheduled. The two-second delayed start is the method `TimerStartFires`, and each second of the interval is `TickFires`; the environment decides when to call them.
- `currentTimerInterval` is the flag `hasInterval`. The source never resets it to `null`, and clearing an interval only stops future ticks, which the caller of `Tick` stands for.
- Registry.Server.TickFires: the interval body in the source holds the room object, while `endRound` looks the room up by id again. After a room is deleted and recreated under the same id, an old interval could tick the old object while ending a round of the new one. The model looks the room up by id for the whole tick, so this interleaving is not covered.
- Registry.Server.TimerStartFires: the delayed start in the source tests the captured room object's `gameStarted` and then starts the timer of the room found by id. The model uses the room found by id for both.
- Registry.Server.Valid: it requires each room to keep its invariant. It does not state that distinct ids hold distinct room objects. New rooms are always fresh, so this holds in every run of the model, but it is not part of the invariant.
- Text.Lower: `toLowerCase` is modelled for ASCII and Latin-1 capitals only. Other Unicode case mappings, including those that change the string's length, are not modelled.
- Text.IsSpace: the white-space set is ECMAScript's fixed list. Characters added to Unicode's space separators later are not tracked.
- Payloads are assumed to be well-typed: room ids, names and answers are strings. A non-string answer would make `trim` throw, and a missing payload field is not modelled.
- Room ids and connection ids are assumed not to name properties that every object inherits (such as "constructor" or "__proto__"). For `gameRooms` this would cause the same failure as the finding below.
- Rooms.Room.SubmitAnswer: `answers[socket.id]` being set is modelled as the connection having an entry. Entries are always objects, so they are always truthy.

## Findings

| source | as written | input that shows it | evidently intended | confidence | as-written member | corrected member |
|---|---|---|---|---|---|---|
| server.js:378-386 | `answerMap` is a plain object literal, so `answerMap[key]` is already truthy for keys that name inherited properties of `Object.prototype`, and `answerMap[key].push(ans)` then throws a TypeError inside the interval callback. The silent players' eliminations (353-357) have already been applied when it throws. No `uncaughtException` handler exists, so the error ends the Node process: the round's report never goes out and every room is lost | one player answers "Constructor" (key "constructor") | a map with no inherited keys, so every key starts with an empty list and every answer is grouped | not executed; high | Grouping.GroupAnswersAsWritten, Grouping.ConstructorAnswerThrows | Grouping.GroupAnswers |
