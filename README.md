# Multiplayer word-guessing game server: a Dafny model of the game engine

The game server lets several players (and spectators) join a room identified by
a six-character code. They race to guess the room's hidden five-letter word, and
each guess gets one mark per letter: `hit`, `present` or `miss`. Results go into
a high-score table and a game log.

This project models the engine of that server in Dafny:

- `Scoring` is the per-letter scorer `score_guess`. It has a spec function
  `Marks` and a method `ScoreGuess` with the scorer's two index loops.
- `Game` is the room. `PlayerState` is a value, and a `Room` class holds the
  players in a map together with their join order, the `gameOver` flag and the
  winner list. `AddPlayer`, `SubmitGuess` and `PublicState` are its operations.
- `Rooms` is the in-memory registry `ROOMS`: a `Registry` class over a map from
  room code to `Room`, with `CreateRoom`, `JoinRoom`, room codes and the
  round-limit fallback.
- `Tokens` is the text a session token signs (`room_id:player_id`) and the
  split-and-compare that verification does on it.
- `HighScores` is `record_result` and `top_leaderboard`. A `Leaderboard` class
  holds the rows (a map from player id), their table order and the append-only
  game log. Its invariant says that the rows are exactly what the log adds up
  to.
- `Models` is the guess validator and the mark and feedback types.
- `Text` is the ASCII part of Python's `strip`, `lower` and `isalpha`.

The room invariant (`Game.RoomInvariant`, which `Room.Valid()` applies to the
fields) holds across every operation. It says:

- `roundsUsed` equals the number of guesses.
- Every guess has five marks.
- Spectators never guess and never leave `Playing`.
- A non-spectator never holds more guesses than the round limit, or one guess
  when the limit is below one.
- A player still playing has rounds left.
- The winner list holds exactly the players who won, and there is at most one.
- A winner means the game is over, and so does every non-spectator having
  finished.

`MovesForward` states that player status only moves forward. Between two states
of a room, nobody leaves, nobody changes role, guesses are only appended, and a
player who has won or lost never changes again.

The model follows the code. These are the places where the code departs from
the header comment of `server/game.py` or from behaviours a reader might expect:

- **Scoring.** The scorer keeps no count of remaining letters. A letter that is
  not a hit is `present` whenever it occurs anywhere in the answer, so a
  repeated guess letter can be marked `present` more often than the answer
  holds it. The header comment of `server/game.py` says otherwise.
  `Scoring.CanonicalMarks` states the duplicate-aware two-pass rule that the
  comment describes. `AgreesWithCanonicalWithoutRepeats` shows that the two
  rules agree whenever the guess repeats no letter. `RepeatedLetterOvercounts`
  shows that they differ on the answer "lemon" with the guess "level".
- **End of game.** The first all-hit guess ends the room for everyone: other
  non-spectators still playing are marked lost, and no further guess is
  accepted. The room therefore has at most one winner.
- **Round limit.** A requested round limit outside 1..10 is replaced by 6, not
  clamped.
- **Room codes.** `create_room` does not retry when a generated room code is
  already in use; it replaces the room registered under it.
- **Rejoining.** Rejoining with a known player id changes nothing, not even the
  nickname.
- **Leaderboard.** The leaderboard has no competition rank and no tie-break on
  player id.

## Model

| member | source | states |
|---|---|---|
| `Text.TrimStart` | server/models.py:21 | the result is the suffix of the input left after removing all leading whitespace, and it does not start with whitespace |
| `Text.TrimEnd` | server/models.py:21 | the result is the prefix of the input left after removing all trailing whitespace, and it does not end with whitespace |
| `Text.StripSurrounded` | server/models.py:21 | `strip` of `pre + w + post` is `w` when `pre` and `post` are whitespace and `w` neither starts nor ends with it |
| `Text.StripKeeps` | server/models.py:21 | every non-whitespace character of the input survives `strip` |
| `Models.ValidateGuess` | server/models.py:16-24 | a guess is accepted exactly when its stripped text is five letters; the accepted value is five lower-case letters, the stripped input lower-cased; any rejection carries the validator's message |
| `Models.ValidateAccepts` | server/models.py:21-24 | any five letters surrounded by any whitespace are accepted, as the letters lower-cased |
| `Models.ValidateAcceptedShape` | server/models.py:21-24 | an accepted input is whitespace, five letters, whitespace, and the accepted value is those letters lower-cased |
| `Models.ValidateRejectsLength` | server/models.py:22-23 | input whose stripped length is not 5 is rejected |
| `Models.ValidateRejectsNonLetter` | server/models.py:22-23 | input holding any character that is neither a letter nor whitespace is rejected, wherever it stands |
| `Models.ValidateIdempotent` | server/models.py:21-24 | validating an accepted value again returns it unchanged |
| `Scoring.Marks` | server/game.py:36-56 | the scorer returns exactly five marks |
| `Scoring.ScoreGuess` | server/game.py:36-56 | the two index loops over a list of five misses compute exactly `Marks` of the lower-cased words |
| `Scoring.MarkMeaning` | server/game.py:41-54 | position i is a hit iff the lower-cased letters agree there; otherwise it is present iff the guess letter occurs anywhere in the answer, and a miss iff it does not |
| `Scoring.AllHitIffSameWord` | server/game.py:36-44 | all five marks are hits iff guess and answer are equal ignoring case |
| `Scoring.SameLetterSameMark` | server/game.py:47-54 | there is no count limit: two non-hit positions with the same letter always get the same mark |
| `Scoring.RepeatedLetterOvercounts` | server/game.py:47-54 | against "lemon", "level" is marked hit, hit, miss, present, present, where the two-pass rule gives hit, hit, miss, miss, miss |
| `Scoring.AgreesWithCanonicalWithoutRepeats` | server/game.py:2-5 | when the guess repeats no letter, the scorer agrees with the duplicate-aware two-pass rule of the header comment |
| `Game.VisibleExactlyNonSpectators` | server/game.py:170-186 | the projection lists exactly the non-spectators, each copied unchanged, and the separately computed total equals its length |
| `Game.VisibleFollowsOrder` | server/game.py:172-181 | the projection lists the players in the order of the room's dict, which is their join order |
| `Tokens.SplitAround` | server/game.py:165 | splitting `x + sep + y` gives the pieces of `x` followed by those of `y`, so a separator in either half adds pieces |
| `Game.ForceOthersLost` | server/game.py:111-117 | the loop over the players makes every non-spectator other than the winner who is still playing lose, and changes nothing else |
| `Game.RoundsWithinLimit` | server/game.py:100-122 | in a consistent room with a limit of at least one round, a non-spectator has used one round per guess and holds at most `max_rounds` guesses |
| `Game.WinKeepsInvariant` | server/game.py:106-118 | a winning guess keeps the room invariant, with the guesser the only winner and the game over, and moves every player forward |
| `Game.OtherGuessKeepsInvariant` | server/game.py:120-127 | a guess that does not win keeps the room invariant, with the game over iff every non-spectator has finished, and moves every player forward |
| `Game.Room.constructor` | server/game.py:69-77 | a new room has no players, is not over and has no winners |
| `Game.Room.AddPlayer` | server/game.py:79-86 | a new id is inserted as playing with no rounds and no guesses, at the end of the join order; an existing id changes nothing, nickname included; the invariant is kept |
| `Game.Room.SubmitGuess` | server/game.py:88-129 | fails in this order, without changing anything: game over, unknown player, spectator, player finished, guess or answer too short to index; a guess that passes all five checks always succeeds, so it succeeds exactly when none fails; on success the feedback is the guess with its marks, and the new state is that of `Win` or `NoWin` |
| `Game.Room.Accept` | server/game.py:100-129 | scores the guess and applies the winning or the non-winning update |
| `Game.Room.Win` | server/game.py:106-118 | the guesser gets one more round and guess and wins, becomes the only listed winner, the game is over, and every other non-spectator still playing loses |
| `Game.Room.NoWin` | server/game.py:120-127 | the guesser gets one more round and guess and loses once `rounds_used >= max_rounds`; the game is over iff some non-spectator exists and all have won or lost |
| `Game.Room.PublicState` | server/game.py:170-189 | the projection carries the room's code, limit, flags and winners, and lists exactly the non-spectators, each once, copied unchanged and in join order, with `total_players` equal to their number |
| `Rooms.NewRoomId` | server/game.py:134-137 | a generated room code is six characters of the code alphabet, so it never holds a colon |
| `Rooms.EffectiveMaxRounds` | server/game.py:142 | the limit is always in 1..10: the requested value when it lies in 1..10, otherwise 6 (absent, below 1 or above 10 alike; no clamping) |
| `Rooms.Registry.constructor` | server/game.py:132 | the registry starts empty |
| `Rooms.Registry.CreateRoom` | server/game.py:139-147 | a fresh room registered under its code, replacing any room there, with the effective limit, and the creator as its only player, a non-spectator with `was_creator` set |
| `Rooms.Registry.JoinRoom` | server/game.py:149-157 | an unknown code fails with "room not found" and changes nothing; otherwise the player is added to that room as `add_player` does, not as creator: a new id joins with a fresh state at the end of the join order, a known id changes nothing |
| `Tokens.Split` | server/game.py:165 | `str.split` on one character gives at least one piece, no piece holds the separator, and the pieces joined back give the input |
| `Tokens.VerifyToken` | server/game.py:162-168 | a bad or expired signature gives false; a payload verifies as true only for the room and player it names |
| `Tokens.IssuedTokenVerifies` | server/game.py:159-166 | a token issued for ids without colons verifies exactly for that room and that player |
| `Tokens.ColonInPlayerIdRaises` | server/game.py:165-167 | for every player id holding a colon, and every claimed room and player, verification of that player's token fails with the uncaught unpacking error instead of returning false |
| `HighScores.Upsert` | server/db.py:43-54 | the latest nickname is stored; a win adds one win, leaves losses alone and makes the fastest win the minimum of the old one and the new round count (or sets it); a loss adds one loss only; the fastest win never increases |
| `HighScores.AggregateCounts` | server/db.py:40-65 | a player has a row iff the log holds a result of theirs; the row carries their id, and its wins and losses equal the counts of their logged wins and losses |
| `HighScores.AggregateFastest` | server/db.py:49-52 | a player's fastest win is absent iff they have no logged win, and otherwise it is the fewest rounds among their logged wins |
| `HighScores.AggregateNickname` | server/db.py:47 | a player's stored nickname is the one of their latest logged result |
| `HighScores.SortRows` | server/db.py:69 | the rows are ordered by wins descending, then fastest win ascending with absent values last, and form a permutation of the input |
| `HighScores.Top` | server/db.py:69 | the query returns `limit` rows (all of them if there are fewer or the limit is negative), sorted, drawn from the table without repetition, and no row left out ranks above one returned |
| `HighScores.TopOfStoredRows` | server/db.py:69-78 | each returned entry equals the stored row of its player id, and every stored row left out ranks no higher than each entry returned |
| `HighScores.Leaderboard.constructor` | server/db.py:36-38 | the tables start empty |
| `HighScores.Leaderboard.RecordResult` | server/db.py:40-65 | only the player's row changes, by `Upsert` of their row or a zeroed one; a new player's row goes at the end of the table; exactly one log entry is appended with room, player, nickname, win or loss, rounds and creator flag; rows stay the aggregate of the log |
| `HighScores.Leaderboard.TopLeaderboard` | server/db.py:67-79 | at most `limit` entries, ordered by wins and then fastest win, each a copy of a stored row, none twice, and no stored row left out that ranks above an entry |

## Left out

- Word-list loading (`load_words`, `WORDS`, `choose_answer`) is file I/O and a
  random choice. `CreateRoom` takes the answer as a parameter. It must be five
  lower-case letters, as every word of the list is.
- `new_room_id` draws six random characters. `NewRoomId` takes the six choices
  as indices into the alphabet, and `CreateRoom` takes a room code of that
  form.
- Token signing, the HMAC secret and the eight-hour age limit are not modelled,
  because they are foreign cryptographic and clock-based code.
  - `VerifyToken` is given the payload recovered from the token, or None for a
    bad or expired signature.
  - `CreateRoom` and `JoinRoom` do not issue tokens.
- Timestamps (`created_at`, `last_guess_ts`, the log's creation time) are clock
  reads with no effect on the logic.
- Database plumbing is not modelled. This covers the engine, sessions, schema
  creation and the tables' integer primary keys. `record_result` is the only
  writer, so there is at most one row per player id.
- `server/main.py` is not part of this model.
  - Left out with it: routing, the HTTP error mapping, the word-list membership
    check, nickname trimming, `you_status` and revealing the answer once the
    game is over.
  - Only the guessing player's result is recorded there. Opponents forced to
    lose by a win never reach the high-score table.
- The constants of `server/config.py` are inlined: 6 rounds by default, and
  spectators allowed. The branch of `join_room` that refuses spectators when
  they are disabled (server/game.py:153-154) can never be taken, so it is not
  modelled.
- Concurrency: the registry has no locking and the model is single-threaded.
- Unicode is not modelled. `strip`, `lower` and `isalpha` are modelled on ASCII
  only: whitespace is the ASCII subset of `str.isspace`, and letters are A-Z
  and a-z.
- Python's `isinstance(max_rounds, int)` is modelled by `Option<int>`. A boolean
  passed as the limit, which Python would accept as an int, is not modelled.
- A guess or answer shorter than five characters makes `score_guess` raise an
  index error. `SubmitGuess` models this as the error `GuessTooShort`, raised
  after the four guards and before any change. `ScoreGuess` itself requires
  five characters.
- A player's state is an object that `submit_guess` mutates in place. Here it
  is a value replaced in the room's map, so aliasing of player objects outside
  the room is not modelled.
- HighScores.Leaderboard.TopLeaderboard: does not say in which order rows that
  tie on both wins and fastest win are returned, because the SQL query leaves
  that order undefined.
