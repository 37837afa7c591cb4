/** The high-score store of server/db.py: `record_result` keeps one aggregate
    row per player id and appends one entry to the game log per call;
    `top_leaderboard` reads the rows back ordered by wins (most first), then by
    fastest win (fewest rounds first, players without a win last), up to a
    limit. The rows are kept in a map from player id, together with the order in
    which they were inserted into the table. */
module HighScores {
  import opened Wrappers

  /** A row of the `high_scores` table. */
  datatype HighScore = HighScore(
    playerId: string, nickname: string, wins: nat, losses: nat, fastestWin: Option<int>)

  datatype Outcome = Win | Loss

  /** A row of the `game_log` table. */
  datatype GameLog = GameLog(
    roomId: string, playerId: string, nickname: string, outcome: Outcome, roundsUsed: int, wasCreator: bool)

  function Min(a: int, b: int): int {
    if a <= b then a else b
  }

  /** The row `record_result` creates for a player it has not seen. */
  function ZeroRow(playerId: string, nickname: string): HighScore {
    HighScore(playerId, nickname, 0, 0, None)
  }

  /** A player's current row, or a zeroed one. */
  function RowFor(rows: map<string, HighScore>, playerId: string, nickname: string): HighScore {
    if playerId in rows then rows[playerId] else ZeroRow(playerId, nickname)
  }

  /** The update `record_result` makes to a row: the latest nickname replaces the
      stored one; a win adds one win and lowers the fastest win to the new round
      count if that is smaller (or sets it); a loss adds one loss and nothing else. */
  function Upsert(hs: HighScore, nickname: string, won: bool, roundsUsed: int): (r: HighScore)
    ensures r.playerId == hs.playerId && r.nickname == nickname
    ensures won ==> && r.wins == hs.wins + 1 && r.losses == hs.losses
                    && r.fastestWin == Some(if hs.fastestWin.Some? then Min(hs.fastestWin.value, roundsUsed) else roundsUsed)
    ensures !won ==> r.wins == hs.wins && r.losses == hs.losses + 1 && r.fastestWin == hs.fastestWin
    ensures hs.fastestWin.Some? ==> r.fastestWin.Some? && r.fastestWin.value <= hs.fastestWin.value
  {
    var named := hs.(nickname := nickname);
    if won then
      named.(wins := named.wins + 1,
             fastestWin := if named.fastestWin.None? || roundsUsed < named.fastestWin.value
                           then Some(roundsUsed) else named.fastestWin)
    else
      named.(losses := named.losses + 1)
  }

  /** The rows after one logged result. */
  function Apply(rows: map<string, HighScore>, e: GameLog): map<string, HighScore> {
    rows[e.playerId := Upsert(RowFor(rows, e.playerId, e.nickname), e.nickname, e.outcome == Win, e.roundsUsed)]
  }

  /** The rows that a log of results produces, starting from empty tables. */
  function Aggregate(log: seq<GameLog>): map<string, HighScore> {
    if log == [] then map[] else Apply(Aggregate(log[..|log| - 1]), log[|log| - 1])
  }

  /** The number of logged results of `playerId` with outcome `o`. */
  function CountOutcome(log: seq<GameLog>, playerId: string, o: Outcome): nat {
    if log == [] then 0
    else CountOutcome(log[..|log| - 1], playerId, o)
         + (if log[|log| - 1].playerId == playerId && log[|log| - 1].outcome == o then 1 else 0)
  }

  predicate Logs(e: GameLog, playerId: string) {
    e.playerId == playerId
  }

  predicate LogsWin(e: GameLog, playerId: string) {
    e.playerId == playerId && e.outcome == Win
  }

  /** A player has a row exactly when the log holds a result of theirs; the row
      carries their id, and its wins and losses count their logged wins and losses. */
  lemma {:induction false} AggregateCounts(log: seq<GameLog>, playerId: string)
    ensures playerId in Aggregate(log) <==> exists k :: 0 <= k < |log| && Logs(log[k], playerId)
    ensures playerId !in Aggregate(log) ==>
              CountOutcome(log, playerId, Win) == 0 && CountOutcome(log, playerId, Loss) == 0
    ensures playerId in Aggregate(log) ==>
              && Aggregate(log)[playerId].playerId == playerId
              && Aggregate(log)[playerId].wins == CountOutcome(log, playerId, Win)
              && Aggregate(log)[playerId].losses == CountOutcome(log, playerId, Loss)
  {
    if log != [] {
      var init := log[..|log| - 1];
      AggregateCounts(init, playerId);
      assert forall k :: 0 <= k < |init| ==> init[k] == log[k];
    }
  }

  /** A player's fastest win is absent exactly when the log holds no win of
      theirs, and is otherwise the fewest rounds among their logged wins. */
  lemma {:induction false} AggregateFastest(log: seq<GameLog>, playerId: string)
    requires playerId in Aggregate(log)
    ensures Aggregate(log)[playerId].fastestWin.None? <==>
              forall k :: 0 <= k < |log| ==> !LogsWin(log[k], playerId)
    ensures Aggregate(log)[playerId].fastestWin.Some? ==>
              var m := Aggregate(log)[playerId].fastestWin.value;
              && (exists k :: 0 <= k < |log| && LogsWin(log[k], playerId) && log[k].roundsUsed == m)
              && (forall k :: 0 <= k < |log| && LogsWin(log[k], playerId) ==> m <= log[k].roundsUsed)
  {
    var init, e := log[..|log| - 1], log[|log| - 1];
    assert forall k :: 0 <= k < |init| ==> init[k] == log[k];
    if playerId in Aggregate(init) {
      AggregateFastest(init, playerId);
    } else {
      AggregateCounts(init, playerId);
    }
  }

  /** A player's nickname is the one of their latest logged result. */
  lemma {:induction false} AggregateNickname(log: seq<GameLog>, playerId: string)
    requires playerId in Aggregate(log)
    ensures exists k :: && 0 <= k < |log| && Logs(log[k], playerId)
                        && Aggregate(log)[playerId].nickname == log[k].nickname
                        && forall j :: k < j < |log| ==> !Logs(log[j], playerId)
  {
    var init, e := log[..|log| - 1], log[|log| - 1];
    assert forall k :: 0 <= k < |init| ==> init[k] == log[k];
    if e.playerId != playerId {
      AggregateNickname(init, playerId);
    } else {
      assert Logs(log[|log| - 1], playerId);
    }
  }

  // ---------------------------------------------------------------------------
  // The ordering of `top_leaderboard`.

  /** `fastest_win ASC NULLS LAST`: `a` comes no later than `b`. */
  predicate FastestNoLater(a: Option<int>, b: Option<int>) {
    match (a, b)
    case (Some(x), Some(y)) => x <= y
    case (Some(_), None) => true
    case (None, None) => true
    case (None, Some(_)) => false
  }

  /** `a` may be listed before `b`: more wins, or as many and a fastest win no later. */
  predicate RanksAtLeast(a: HighScore, b: HighScore) {
    a.wins > b.wins || (a.wins == b.wins && FastestNoLater(a.fastestWin, b.fastestWin))
  }

  ghost predicate Sorted(s: seq<HighScore>) {
    forall i, j :: 0 <= i < j < |s| ==> RanksAtLeast(s[i], s[j])
  }

  lemma RanksTotalPreorder()
    ensures forall a, b :: RanksAtLeast(a, b) || RanksAtLeast(b, a)
    ensures forall a, b, c :: RanksAtLeast(a, b) && RanksAtLeast(b, c) ==> RanksAtLeast(a, c)
  {
  }

  function Insert(x: HighScore, s: seq<HighScore>): (r: seq<HighScore>)
    requires Sorted(s)
    ensures Sorted(r) && multiset(r) == multiset(s) + multiset{x}
  {
    RanksTotalPreorder();
    if s == [] then [x]
    else if RanksAtLeast(x, s[0]) then [x] + s
    else
      assert s == [s[0]] + s[1..];
      var rest := Insert(x, s[1..]);
      assert forall y :: y in multiset(rest) ==> RanksAtLeast(s[0], y);
      [s[0]] + rest
  }

  /** The rows in the order of the query, ties in no promised order. */
  function SortRows(s: seq<HighScore>): (r: seq<HighScore>)
    ensures Sorted(r) && multiset(r) == multiset(s)
  {
    if s == [] then []
    else
      assert s == [s[0]] + s[1..];
      Insert(s[0], SortRows(s[1..]))
  }

  /** `LIMIT`; a negative limit means no limit in SQLite. */
  function Take(s: seq<HighScore>, limit: int): seq<HighScore> {
    if limit < 0 || limit >= |s| then s else s[..limit]
  }

  /** The ordered, limited query over a table: as many rows as the limit allows,
      in order, drawn from the table, and none left out that ranks above one
      taken. */
  function Top(table: seq<HighScore>, limit: int): (r: seq<HighScore>)
    ensures |r| == if 0 <= limit <= |table| then limit else |table|
    ensures Sorted(r)
    ensures multiset(r) <= multiset(table)
    ensures forall x :: x in multiset(table) - multiset(r) ==>
              forall i :: 0 <= i < |r| ==> RanksAtLeast(r[i], x)
  {
    var s := SortRows(table);
    var r := Take(s, limit);
    SortedPrefixRanksFirst(s, |r|);
    r
  }

  /** In a sorted sequence, the first n rows rank at least as high as every row
      after them. */
  lemma SortedPrefixRanksFirst(s: seq<HighScore>, n: nat)
    requires Sorted(s) && n <= |s|
    ensures multiset(s[..n]) <= multiset(s)
    ensures forall x :: x in multiset(s) - multiset(s[..n]) ==>
              forall i :: 0 <= i < n ==> RanksAtLeast(s[i], x)
  {
    assert s == s[..n] + s[n..];
    assert multiset(s) == multiset(s[..n]) + multiset(s[n..]);
    forall x | x in multiset(s) - multiset(s[..n])
      ensures forall i :: 0 <= i < n ==> RanksAtLeast(s[i], x)
    {
      assert x in multiset(s[n..]);
      var j :| n <= j < |s| && s[j] == x;
    }
  }

  /** The table rows, in insertion order. */
  function RowsInOrder(rows: map<string, HighScore>, order: seq<string>): (t: seq<HighScore>)
    requires forall k :: 0 <= k < |order| ==> order[k] in rows
    ensures |t| == |order|
  {
    seq(|order|, k requires 0 <= k < |order| => rows[order[k]])
  }

  /** Every table row is the stored row of its own player id, and every stored
      row is in the table. */
  lemma TableHoldsRows(rows: map<string, HighScore>, order: seq<string>)
    requires forall id :: id in rows ==> rows[id].playerId == id
    requires forall id :: id in rows <==> id in order
    ensures forall x :: x in multiset(RowsInOrder(rows, order)) ==> x.playerId in rows && rows[x.playerId] == x
    ensures forall id :: id in rows ==> rows[id] in multiset(RowsInOrder(rows, order))
  {
    var table := RowsInOrder(rows, order);
    forall id | id in rows
      ensures rows[id] in multiset(table)
    {
      var k :| 0 <= k < |order| && order[k] == id;
      assert table[k] == rows[id];
    }
  }

  /** The query result, restated for the stored rows. */
  lemma TopOfStoredRows(rows: map<string, HighScore>, order: seq<string>, limit: int)
    requires forall id :: id in rows ==> rows[id].playerId == id
    requires forall id :: id in rows <==> id in order
    ensures var r := Top(RowsInOrder(rows, order), limit);
            && (forall i :: 0 <= i < |r| ==> r[i].playerId in rows && rows[r[i].playerId] == r[i])
            && (forall id :: id in rows && rows[id] !in multiset(r) ==>
                  forall i :: 0 <= i < |r| ==> RanksAtLeast(r[i], rows[id]))
  {
    var table := RowsInOrder(rows, order);
    var r := Top(table, limit);
    TableHoldsRows(rows, order);
    forall i | 0 <= i < |r|
      ensures r[i].playerId in rows && rows[r[i].playerId] == r[i]
    {
      assert r[i] in multiset(r);
    }
    forall id | id in rows && rows[id] !in multiset(r)
      ensures forall i :: 0 <= i < |r| ==> RanksAtLeast(r[i], rows[id])
    {
      assert rows[id] in multiset(table) - multiset(r);
    }
  }

  class Leaderboard {
    var rows: map<string, HighScore>
    var rowOrder: seq<string>
    var log: seq<GameLog>

    /** The rows are exactly what the log adds up to, each keyed by its own
        player id, and `rowOrder` lists them once each. */
    ghost predicate Valid()
      reads this
    {
      && rows == Aggregate(log)
      && (forall id :: id in rows ==> rows[id].playerId == id)
      && (forall i, j :: 0 <= i < j < |rowOrder| ==> rowOrder[i] != rowOrder[j])
      && (forall id :: id in rows <==> id in rowOrder)
    }

    /** `init_db`: empty tables. */
    constructor ()
      ensures Valid() && rows == map[] && rowOrder == [] && log == []
    {
      rows := map[];
      rowOrder := [];
      log := [];
    }

    /** `record_result`: fetch or create the player's row, update it, and log the
        result. Only that player's row changes. */
    method RecordResult(playerId: string, nickname: string, won: bool, roundsUsed: int,
                        roomId: string, wasCreator: bool)
      requires Valid()
      modifies this
      ensures Valid()
      ensures rows == old(rows)[playerId := Upsert(RowFor(old(rows), playerId, nickname), nickname, won, roundsUsed)]
      ensures rowOrder == if playerId in old(rows) then old(rowOrder) else old(rowOrder) + [playerId]
      ensures log == old(log) + [GameLog(roomId, playerId, nickname, if won then Win else Loss, roundsUsed, wasCreator)]
    {
      var hs: HighScore;
      if playerId in rows {
        hs := rows[playerId];
      } else {
        hs := ZeroRow(playerId, nickname);
        rowOrder := rowOrder + [playerId];
      }
      hs := hs.(nickname := nickname);
      if won {
        hs := hs.(wins := hs.wins + 1);
        if hs.fastestWin.None? || roundsUsed < hs.fastestWin.value {
          hs := hs.(fastestWin := Some(roundsUsed));
        }
      } else {
        hs := hs.(losses := hs.losses + 1);
      }
      rows := rows[playerId := hs];
      var entry := GameLog(roomId, playerId, nickname, if won then Win else Loss, roundsUsed, wasCreator);
      log := log + [entry];
      assert log[..|log| - 1] == old(log);
    }

    /** `top_leaderboard(limit)`: at most `limit` rows (all of them for a negative
        limit), ordered by wins and then fastest win, each a copy of a stored
        row, no row listed twice, and no row left out that ranks above one listed. */
    function TopLeaderboard(limit: int): (r: seq<HighScore>)
      reads this
      requires Valid()
      ensures limit >= 0 ==> |r| <= limit
      ensures |r| == if 0 <= limit <= |rowOrder| then limit else |rowOrder|
      ensures Sorted(r)
      ensures forall i :: 0 <= i < |r| ==> r[i].playerId in rows && rows[r[i].playerId] == r[i]
      ensures multiset(r) <= multiset(RowsInOrder(rows, rowOrder))
      ensures forall id :: id in rows && rows[id] !in multiset(r) ==>
                forall i :: 0 <= i < |r| ==> RanksAtLeast(r[i], rows[id])
    {
      TopOfStoredRows(rows, rowOrder, limit);
      Top(RowsInOrder(rows, rowOrder), limit)
    }
  }
}
