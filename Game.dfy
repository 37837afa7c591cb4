/** One game room (server/game.py): its players, their guesses and statuses,
    the room-wide game-over flag and the winners. A room is an object whose
    methods update its fields in place; each player's state is a value kept in
    the room's `players` map, and `joinOrder` records the insertion order of
    that map, which is the order in which the room iterates over its players. */
module Game {
  import opened Wrappers
  import opened Models
  import Scoring

  datatype Status = Playing | Won | Lost

  /** `PlayerState`. Spectators keep the status `Playing` for ever. */
  datatype PlayerState = PlayerState(
    playerId: string,
    nickname: string,
    guesses: seq<GuessFeedback>,
    status: Status,
    roundsUsed: int,
    isSpectator: bool,
    wasCreator: bool)

  /** The state `add_player` creates: playing, no rounds used, no guesses. */
  function NewPlayer(playerId: string, nickname: string, isSpectator: bool, wasCreator: bool): PlayerState {
    PlayerState(playerId, nickname, [], Playing, 0, isSpectator, wasCreator)
  }

  /** The players after `add_player`: a new id is inserted, an existing one is kept as it is. */
  function Admit(players: map<string, PlayerState>, playerId: string, nickname: string,
                 isSpectator: bool, wasCreator: bool): map<string, PlayerState>
  {
    if playerId in players then players
    else players[playerId := NewPlayer(playerId, nickname, isSpectator, wasCreator)]
  }

  predicate IsTerminal(s: Status) {
    s == Won || s == Lost
  }

  /** The room-ending test after a guess that did not win: there is at least one
      non-spectator, and every non-spectator has won or lost. */
  predicate AllFinished(players: map<string, PlayerState>) {
    && (exists pid :: pid in players && !players[pid].isSpectator)
    && (forall pid :: pid in players && !players[pid].isSpectator ==> IsTerminal(players[pid].status))
  }

  /** What a win does to another participant: a non-spectator still playing loses. */
  function ForcedLoss(p: PlayerState): PlayerState {
    if !p.isSpectator && p.status == Playing then p.(status := Lost) else p
  }

  /** Participant `pid` after `winner` has won. */
  function AfterWin(players: map<string, PlayerState>, pid: string, winner: string): PlayerState
    requires pid in players
  {
    if pid == winner then players[pid] else ForcedLoss(players[pid])
  }

  /** Every participant after `winner` has won. */
  function EndForOthers(players: map<string, PlayerState>, winner: string): map<string, PlayerState> {
    map pid | pid in players :: AfterWin(players, pid, winner)
  }

  /** The guess count a non-spectator can reach: `maxRounds`, and at least one
      (the first guess is always accepted). */
  function Budget(maxRounds: int): int {
    if maxRounds >= 1 then maxRounds else 1
  }

  /** One player's state is consistent: keyed by its own id, one round per
      guess, five marks per guess, spectators never guess nor finish, and the
      round budget is kept. */
  ghost predicate WellFormed(pid: string, p: PlayerState, maxRounds: int) {
    && p.playerId == pid
    && p.roundsUsed == |p.guesses|
    && (forall k :: 0 <= k < |p.guesses| ==> |p.guesses[k].marks| == 5)
    && (p.isSpectator ==> p.status == Playing && p.guesses == [])
    && p.roundsUsed <= Budget(maxRounds)
    && (p.status == Playing && p.roundsUsed > 0 ==> p.roundsUsed < maxRounds)
  }

  /** `order` lists the keys of `players`, each once. */
  ghost predicate JoinOrderMatches(order: seq<string>, players: map<string, PlayerState>) {
    && (forall i, j :: 0 <= i < j < |order| ==> order[i] != order[j])
    && (forall pid :: pid in players <==> pid in order)
  }

  /** How the players may change from one state of a room to a later one: no one
      leaves, nobody changes role, guesses are only appended, and a player who
      has won or lost never changes again. */
  ghost predicate MovesForward(before: map<string, PlayerState>, after: map<string, PlayerState>) {
    && before.Keys <= after.Keys
    && forall pid :: pid in before ==>
         && after[pid].isSpectator == before[pid].isSpectator
         && before[pid].guesses <= after[pid].guesses
         && (IsTerminal(before[pid].status) ==> after[pid] == before[pid])
  }

  /** The errors `submit_guess` raises, in the order it checks them;
      GuessTooShort stands for the index error of the scorer on a guess or answer
      shorter than five characters. */
  datatype SubmitError = GameAlreadyOver | PlayerNotInRoom | SpectatorCannotGuess | PlayerAlreadyFinished | GuessTooShort

  /** The public view of one non-spectator. */
  datatype PlayerPublic = PlayerPublic(
    playerId: string, nickname: string, guesses: seq<GuessFeedback>, status: Status, roundsUsed: int)

  /** The result of `room_public_state`. */
  datatype RoomPublic = RoomPublic(
    roomId: string, maxRounds: int, players: seq<PlayerPublic>, totalPlayers: int,
    gameOver: bool, winnerIds: seq<string>)

  function Publish(p: PlayerState): PlayerPublic {
    PlayerPublic(p.playerId, p.nickname, p.guesses, p.status, p.roundsUsed)
  }

  /** The public entries of the non-spectators named in `order`, in that order. */
  function Visible(order: seq<string>, players: map<string, PlayerState>): seq<PlayerPublic>
    requires forall k :: 0 <= k < |order| ==> order[k] in players
  {
    if order == [] then []
    else (if players[order[0]].isSpectator then [] else [Publish(players[order[0]])])
         + Visible(order[1..], players)
  }

  /** The number of non-spectators named in `order`. */
  function CountNonSpectators(order: seq<string>, players: map<string, PlayerState>): nat
    requires forall k :: 0 <= k < |order| ==> order[k] in players
  {
    if order == [] then 0
    else (if players[order[0]].isSpectator then 0 else 1) + CountNonSpectators(order[1..], players)
  }

  /** `a` stands before `b` in `order`. */
  ghost predicate Before(order: seq<string>, a: string, b: string) {
    exists x, y :: 0 <= x < y < |order| && order[x] == a && order[y] == b
  }

  lemma BeforeInTail(order: seq<string>, a: string, b: string)
    requires |order| > 0 && Before(order[1..], a, b)
    ensures Before(order, a, b)
  {
    var x, y :| 0 <= x < y < |order[1..]| && order[1..][x] == a && order[1..][y] == b;
    assert order[x + 1] == a && order[y + 1] == b;
  }

  lemma BeforeFromHead(order: seq<string>, b: string)
    requires |order| > 0 && b in order[1..]
    ensures Before(order, order[0], b)
  {
    var y :| 0 <= y < |order[1..]| && order[1..][y] == b;
    assert order[y + 1] == b;
  }

  /** The projection lists exactly the non-spectators, each copied unchanged, and
      the separately computed total is its length. */
  lemma {:induction false} VisibleExactlyNonSpectators(order: seq<string>, players: map<string, PlayerState>)
    requires forall k :: 0 <= k < |order| ==> order[k] in players && players[order[k]].playerId == order[k]
    ensures |Visible(order, players)| == CountNonSpectators(order, players)
    ensures forall e :: e in Visible(order, players) ==>
              e.playerId in order && !players[e.playerId].isSpectator && e == Publish(players[e.playerId])
    ensures forall k :: 0 <= k < |order| && !players[order[k]].isSpectator ==>
              Publish(players[order[k]]) in Visible(order, players)
  {
    if order != [] {
      VisibleExactlyNonSpectators(order[1..], players);
      forall k | 1 <= k < |order| ensures order[k] == order[1..][k - 1] { }
    }
  }

  /** The entries of `v` belong to players standing in that order in `order`. */
  ghost predicate InOrder(v: seq<PlayerPublic>, order: seq<string>) {
    forall i, j :: 0 <= i < j < |v| ==> Before(order, v[i].playerId, v[j].playerId)
  }

  lemma InOrderInTail(v: seq<PlayerPublic>, order: seq<string>)
    requires |order| > 0 && InOrder(v, order[1..])
    ensures InOrder(v, order)
  {
    forall i, j | 0 <= i < j < |v|
      ensures Before(order, v[i].playerId, v[j].playerId)
    {
      BeforeInTail(order, v[i].playerId, v[j].playerId);
    }
  }

  lemma InOrderCons(h: PlayerPublic, t: seq<PlayerPublic>, order: seq<string>)
    requires |order| > 0 && h.playerId == order[0] && InOrder(t, order[1..])
    requires forall e :: e in t ==> e.playerId in order[1..]
    ensures InOrder([h] + t, order)
  {
    var v := [h] + t;
    forall i, j | 0 <= i < j < |v|
      ensures Before(order, v[i].playerId, v[j].playerId)
    {
      assert v[j] == t[j - 1] && t[j - 1] in t;
      if i == 0 {
        BeforeFromHead(order, v[j].playerId);
      } else {
        assert v[i] == t[i - 1];
        BeforeInTail(order, v[i].playerId, v[j].playerId);
      }
    }
  }

  /** The projection keeps the order of `order`. */
  lemma {:induction false} VisibleFollowsOrder(order: seq<string>, players: map<string, PlayerState>)
    requires forall k :: 0 <= k < |order| ==> order[k] in players && players[order[k]].playerId == order[k]
    ensures InOrder(Visible(order, players), order)
  {
    if order != [] {
      var tail := order[1..];
      VisibleFollowsOrder(tail, players);
      var t := Visible(tail, players);
      if players[order[0]].isSpectator {
        assert Visible(order, players) == t;
        InOrderInTail(t, order);
      } else {
        assert Visible(order, players) == [Publish(players[order[0]])] + t;
        VisibleExactlyNonSpectators(tail, players);
        InOrderCons(Publish(players[order[0]]), t, order);
      }
    }
  }

  /** The loop of `submit_guess` that ends the room for everyone else after a
      win, visiting the participants in `order`. */
  method ForceOthersLost(players: map<string, PlayerState>, order: seq<string>, winner: string)
    returns (ps: map<string, PlayerState>)
    requires JoinOrderMatches(order, players)
    ensures ps == EndForOthers(players, winner)
  {
    ps := players;
    var k := 0;
    while k < |order|
      invariant 0 <= k <= |order|
      invariant ps.Keys == players.Keys
      invariant forall i :: 0 <= i < k ==> ps[order[i]] == AfterWin(players, order[i], winner)
      invariant forall i :: k <= i < |order| ==> ps[order[i]] == players[order[i]]
    {
      var q := order[k];
      var other := ps[q];
      if other.isSpectator || q == winner {
      } else if other.status == Playing {
        ps := ps[q := other.(status := Lost)];
      }
      k := k + 1;
    }
    forall q | q in players
      ensures ps[q] == AfterWin(players, q, winner)
    {
      var i :| 0 <= i < |order| && order[i] == q;
    }
  }

  /** The room invariant, over the room's fields. Besides the consistency of
      each player and of the join order: every winner is listed in `winners` and
      every listed id has won, there is at most one, a winner means the game is
      over, and so does every non-spectator having finished. */
  ghost predicate RoomInvariant(players: map<string, PlayerState>, order: seq<string>,
                                winners: seq<string>, gameOver: bool, maxRounds: int)
  {
    && JoinOrderMatches(order, players)
    && (forall pid :: pid in players ==> WellFormed(pid, players[pid], maxRounds))
    && (forall k :: 0 <= k < |winners| ==> winners[k] in players && players[winners[k]].status == Won)
    && (forall pid :: pid in players && players[pid].status == Won ==> pid in winners)
    && |winners| <= 1
    && (winners != [] ==> gameOver)
    && (AllFinished(players) ==> gameOver)
  }

  /** In a consistent room with a limit of at least one round, every
      non-spectator has used one round per guess and holds at most the limit. */
  lemma RoundsWithinLimit(players: map<string, PlayerState>, order: seq<string>, winners: seq<string>,
                          gameOver: bool, maxRounds: int, pid: string)
    requires RoomInvariant(players, order, winners, gameOver, maxRounds)
    requires maxRounds >= 1 && pid in players && !players[pid].isSpectator
    ensures |players[pid].guesses| == players[pid].roundsUsed <= maxRounds
  {
    assert WellFormed(pid, players[pid], maxRounds);
  }

  /** A player after one more accepted guess, before any change of status. */
  function Guessed(p: PlayerState, feedback: GuessFeedback): PlayerState {
    p.(guesses := p.guesses + [feedback], roundsUsed := p.roundsUsed + 1)
  }

  /** A player who did not win loses once the rounds are used up. */
  function LoseIfExhausted(p: PlayerState, maxRounds: int): PlayerState {
    if p.roundsUsed >= maxRounds then p.(status := Lost) else p
  }

  /** The players after `pid`'s winning guess. */
  function AfterWinningGuess(players: map<string, PlayerState>, pid: string, feedback: GuessFeedback)
    : map<string, PlayerState>
    requires pid in players
  {
    EndForOthers(players[pid := Guessed(players[pid], feedback).(status := Won)], pid)
  }

  /** The players after `pid`'s guess that did not win. */
  function AfterOtherGuess(players: map<string, PlayerState>, pid: string, feedback: GuessFeedback,
                           maxRounds: int): map<string, PlayerState>
    requires pid in players
  {
    players[pid := LoseIfExhausted(Guessed(players[pid], feedback), maxRounds)]
  }

  /** A guess that may be accepted: the room is not over and the player is a
      non-spectator still playing. */
  ghost predicate MayGuess(players: map<string, PlayerState>, order: seq<string>, gameOver: bool,
                           maxRounds: int, pid: string)
  {
    && RoomInvariant(players, order, [], gameOver, maxRounds)
    && !gameOver
    && pid in players && !players[pid].isSpectator && players[pid].status == Playing
  }

  /** A winning guess keeps the invariant with the guesser as the only winner
      and the game over, and moves every player forward. */
  lemma WinKeepsInvariant(players: map<string, PlayerState>, order: seq<string>, maxRounds: int,
                          pid: string, feedback: GuessFeedback)
    requires MayGuess(players, order, false, maxRounds, pid) && |feedback.marks| == 5
    ensures RoomInvariant(AfterWinningGuess(players, pid, feedback), order, [pid], true, maxRounds)
    ensures MovesForward(players, AfterWinningGuess(players, pid, feedback))
  {
    var after := AfterWinningGuess(players, pid, feedback);
    forall q | q in after
      ensures WellFormed(q, after[q], maxRounds)
      ensures after[q].status == Won ==> q == pid
    {
      assert WellFormed(q, players[q], maxRounds);
    }
  }

  /** A guess that does not win keeps the invariant, with the game over exactly
      when every non-spectator has finished, and moves every player forward. */
  lemma OtherGuessKeepsInvariant(players: map<string, PlayerState>, order: seq<string>, maxRounds: int,
                                 pid: string, feedback: GuessFeedback)
    requires MayGuess(players, order, false, maxRounds, pid) && |feedback.marks| == 5
    ensures var after := AfterOtherGuess(players, pid, feedback, maxRounds);
            RoomInvariant(after, order, [], AllFinished(after), maxRounds)
    ensures MovesForward(players, AfterOtherGuess(players, pid, feedback, maxRounds))
  {
    var after := AfterOtherGuess(players, pid, feedback, maxRounds);
    forall q | q in after
      ensures WellFormed(q, after[q], maxRounds)
      ensures after[q].status != Won
    {
      assert WellFormed(q, players[q], maxRounds);
    }
  }

  class Room {
    const roomId: string
    const answer: string
    const maxRounds: int
    var players: map<string, PlayerState>
    var joinOrder: seq<string>
    var gameOver: bool
    var winnerIds: seq<string>

    ghost predicate Valid()
      reads this
    {
      RoomInvariant(players, joinOrder, winnerIds, gameOver, maxRounds)
    }

    constructor (roomId: string, answer: string, maxRounds: int)
      ensures Valid()
      ensures this.roomId == roomId && this.answer == answer && this.maxRounds == maxRounds
      ensures players == map[] && joinOrder == [] && !gameOver && winnerIds == []
    {
      this.roomId := roomId;
      this.answer := answer;
      this.maxRounds := maxRounds;
      players := map[];
      joinOrder := [];
      gameOver := false;
      winnerIds := [];
    }

    /** `add_player`: a new id joins as playing with no rounds used; an id
        already in the room changes nothing, not even the nickname. */
    method AddPlayer(playerId: string, nickname: string, isSpectator: bool, wasCreator: bool)
      requires Valid()
      modifies this
      ensures Valid()
      ensures players == Admit(old(players), playerId, nickname, isSpectator, wasCreator)
      ensures joinOrder == if playerId in old(players) then old(joinOrder) else old(joinOrder) + [playerId]
      ensures gameOver == old(gameOver) && winnerIds == old(winnerIds)
      ensures MovesForward(old(players), players)
    {
      if playerId !in players {
        players := players[playerId := NewPlayer(playerId, nickname, isSpectator, wasCreator)];
        joinOrder := joinOrder + [playerId];
        if AllFinished(players) {
          // Only a spectator can join a room whose non-spectators all finished.
          assert players[playerId].status == Playing;
          assert players[playerId].isSpectator;
          ghost var w :| w in players && !players[w].isSpectator;
          assert w in old(players);
          forall q | q in old(players) && !old(players)[q].isSpectator
            ensures IsTerminal(old(players)[q].status)
          {
            assert players[q] == old(players)[q];
          }
        }
      }
    }

    /** `submit_guess`. The four guards fail in order and change nothing; so does
        the index error of a guess or answer shorter than five characters. An
        accepted guess is scored, appended and counted; an all-hit guess makes the
        player the room's only winner, ends the game and makes every other
        non-spectator still playing lose; any other guess loses once the rounds
        are used up, and the game is then over exactly when every non-spectator
        has finished. */
    method SubmitGuess(playerId: string, guess: string) returns (r: Result<GuessFeedback, SubmitError>)
      requires Valid()
      modifies this
      ensures Valid()
      ensures joinOrder == old(joinOrder)
      ensures MovesForward(old(players), players)
      ensures old(gameOver) ==> r == Err(GameAlreadyOver)
      ensures !old(gameOver) && playerId !in old(players) ==> r == Err(PlayerNotInRoom)
      ensures !old(gameOver) && playerId in old(players) && old(players)[playerId].isSpectator ==>
                r == Err(SpectatorCannotGuess)
      ensures !old(gameOver) && playerId in old(players) && !old(players)[playerId].isSpectator
              && old(players)[playerId].status != Playing ==>
                r == Err(PlayerAlreadyFinished)
      ensures MayGuess(old(players), joinOrder, old(gameOver), maxRounds, playerId)
              && (|answer| < 5 || |guess| < 5) ==>
                r == Err(GuessTooShort)
      ensures r.Err? ==> players == old(players) && gameOver == old(gameOver) && winnerIds == old(winnerIds)
      ensures !old(gameOver) && playerId in old(players) && !old(players)[playerId].isSpectator
              && old(players)[playerId].status == Playing && |answer| >= 5 && |guess| >= 5 ==>
                r.Ok?
      ensures r.Ok? ==>
                && MayGuess(old(players), joinOrder, old(gameOver), maxRounds, playerId)
                && |answer| >= 5 && |guess| >= 5
                && r.value == GuessFeedback(guess, Scoring.Marks(answer, guess))
      ensures r.Ok? && Scoring.AllHit(r.value.marks) ==>
                && players == AfterWinningGuess(old(players), playerId, r.value)
                && winnerIds == [playerId]
                && gameOver
      ensures r.Ok? && !Scoring.AllHit(r.value.marks) ==>
                && players == AfterOtherGuess(old(players), playerId, r.value, maxRounds)
                && winnerIds == []
                && gameOver == AllFinished(players)
    {
      if gameOver {
        return Err(GameAlreadyOver);
      }
      if playerId !in players {
        return Err(PlayerNotInRoom);
      }
      var p := players[playerId];
      if p.isSpectator {
        return Err(SpectatorCannotGuess);
      }
      if p.status != Playing {
        return Err(PlayerAlreadyFinished);
      }
      if |answer| < 5 || |guess| < 5 {
        return Err(GuessTooShort);
      }
      var feedback := Accept(playerId, guess);
      r := Ok(feedback);
    }

    /** The part of `submit_guess` after its guards: score, record, and settle
        the player's and the room's status. */
    method Accept(playerId: string, guess: string) returns (feedback: GuessFeedback)
      requires Valid()
      requires MayGuess(players, joinOrder, gameOver, maxRounds, playerId)
      requires |answer| >= 5 && |guess| >= 5
      modifies this
      ensures Valid()
      ensures joinOrder == old(joinOrder)
      ensures MovesForward(old(players), players)
      ensures feedback == GuessFeedback(guess, Scoring.Marks(answer, guess))
      ensures Scoring.AllHit(feedback.marks) ==>
                && players == AfterWinningGuess(old(players), playerId, feedback)
                && winnerIds == [playerId]
                && gameOver
      ensures !Scoring.AllHit(feedback.marks) ==>
                && players == AfterOtherGuess(old(players), playerId, feedback, maxRounds)
                && winnerIds == []
                && gameOver == AllFinished(players)
    {
      var marks := Scoring.ScoreGuess(answer, guess);
      feedback := GuessFeedback(guess, marks);
      if Scoring.AllHit(marks) {
        Win(playerId, feedback);
      } else {
        NoWin(playerId, feedback);
      }
    }

    /** An all-hit guess: the player wins and is listed as a winner if not
        already, the game is over, and the loop makes everyone else still
        playing lose. */
    method Win(playerId: string, feedback: GuessFeedback)
      requires Valid()
      requires MayGuess(players, joinOrder, gameOver, maxRounds, playerId) && |feedback.marks| == 5
      modifies this
      ensures Valid()
      ensures joinOrder == old(joinOrder)
      ensures MovesForward(old(players), players)
      ensures players == AfterWinningGuess(old(players), playerId, feedback)
      ensures winnerIds == [playerId] && gameOver
    {
      WinKeepsInvariant(players, joinOrder, maxRounds, playerId, feedback);
      var p := players[playerId];
      p := p.(roundsUsed := p.roundsUsed + 1, guesses := p.guesses + [feedback]);
      p := p.(status := Won);
      var ps := players[playerId := p];
      if playerId !in winnerIds {
        winnerIds := winnerIds + [playerId];
      }
      gameOver := true;
      ps := ForceOthersLost(ps, joinOrder, playerId);
      players := ps;
    }

    /** Any other accepted guess: the player loses once the rounds are used up,
        and the game is over once every non-spectator has finished. */
    method NoWin(playerId: string, feedback: GuessFeedback)
      requires Valid()
      requires MayGuess(players, joinOrder, gameOver, maxRounds, playerId) && |feedback.marks| == 5
      modifies this
      ensures Valid()
      ensures joinOrder == old(joinOrder)
      ensures MovesForward(old(players), players)
      ensures players == AfterOtherGuess(old(players), playerId, feedback, maxRounds)
      ensures winnerIds == [] && gameOver == AllFinished(players)
    {
      OtherGuessKeepsInvariant(players, joinOrder, maxRounds, playerId, feedback);
      var p := players[playerId];
      p := p.(roundsUsed := p.roundsUsed + 1, guesses := p.guesses + [feedback]);
      if p.roundsUsed >= maxRounds {
        p := p.(status := Lost);
      }
      players := players[playerId := p];
      if AllFinished(players) {
        gameOver := true;
      }
    }

    /** `room_public_state`: the room's settings and flags, and the public state
        of exactly its non-spectators, in join order; the total counts them. */
    function PublicState(): (s: RoomPublic)
      reads this
      requires Valid()
      ensures s.roomId == roomId && s.maxRounds == maxRounds
      ensures s.gameOver == gameOver && s.winnerIds == winnerIds
      ensures s.totalPlayers == |s.players|
      ensures forall e :: e in s.players ==>
                e.playerId in players && !players[e.playerId].isSpectator && e == Publish(players[e.playerId])
      ensures forall pid :: pid in players && !players[pid].isSpectator ==> Publish(players[pid]) in s.players
      ensures forall i, j :: 0 <= i < j < |s.players| ==> Before(joinOrder, s.players[i].playerId, s.players[j].playerId)
      ensures forall i, j :: 0 <= i < j < |s.players| ==> s.players[i].playerId != s.players[j].playerId
    {
      VisibleExactlyNonSpectators(joinOrder, players);
      VisibleFollowsOrder(joinOrder, players);
      RoomPublic(roomId, maxRounds, Visible(joinOrder, players), CountNonSpectators(joinOrder, players),
                 gameOver, winnerIds)
    }
  }
}
