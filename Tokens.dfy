/** The payload of the session tokens of server/game.py. A token signs the text
    `room_id + ":" + player_id`; verification recovers that text, splits it at
    the colons and compares both halves with the claimed room and player. The
    signature and its eight-hour age limit are not modelled: verification is
    given the recovered payload, or None when the signature is bad or expired. */
module Tokens {
  import opened Wrappers

  /** The text `issue_token` signs. */
  function Payload(roomId: string, playerId: string): string {
    roomId + ":" + playerId
  }

  /** Joins `parts` with `sep` between neighbours. */
  function Join(parts: seq<string>, sep: char): string
    requires |parts| >= 1
  {
    if |parts| == 1 then parts[0] else parts[0] + [sep] + Join(parts[1..], sep)
  }

  /** Python's `str.split(sep)` for a one-character separator: the pieces between
      the separators, none containing it, which join back to `s`. */
  function Split(s: string, sep: char): (parts: seq<string>)
    ensures |parts| >= 1
    ensures forall k :: 0 <= k < |parts| ==> sep !in parts[k]
    ensures Join(parts, sep) == s
  {
    if |s| == 0 then [""]
    else
      var rest := Split(s[1..], sep);
      if s[0] == sep then
        assert ([""] + rest)[1..] == rest;
        [""] + rest
      else
        var parts := [[s[0]] + rest[0]] + rest[1..];
        assert parts[1..] == rest[1..];
        assert Join(parts, sep) == [s[0]] + Join(rest, sep);
        parts
  }

  /** The unpacking `rid, pid = data.split(":")` fails unless there are exactly
      two pieces; that error is not the bad-signature one, so it is not caught. */
  datatype TokenError = MalformedPayload

  /** `verify_token` after the signature check. A token verifies only for the
      room and player whose payload it carries. */
  function VerifyToken(unsigned: Option<string>, roomId: string, playerId: string): (r: Result<bool, TokenError>)
    ensures unsigned.None? ==> r == Ok(false)
    ensures r == Ok(true) ==> unsigned == Some(Payload(roomId, playerId))
  {
    match unsigned
    case None => Ok(false)
    case Some(data) =>
      var parts := Split(data, ':');
      if |parts| != 2 then Err(MalformedPayload)
      else
        assert Join(parts, ':') == parts[0] + ":" + parts[1];
        Ok(parts[0] == roomId && parts[1] == playerId)
  }

  lemma {:induction false} SplitWithoutSeparator(s: string, sep: char)
    requires sep !in s
    ensures Split(s, sep) == [s]
  {
    if |s| > 0 {
      SplitWithoutSeparator(s[1..], sep);
    }
  }

  /** Splitting at a first separator: the text before it is the first piece. */
  lemma {:induction false} SplitAtFirst(a: string, rest: string, sep: char)
    requires sep !in a
    ensures Split(a + [sep] + rest, sep) == [a] + Split(rest, sep)
  {
    if |a| == 0 {
      assert a + [sep] + rest == [sep] + rest;
      assert ([sep] + rest)[1..] == rest;
    } else {
      assert (a + [sep] + rest)[1..] == a[1..] + [sep] + rest;
      SplitAtFirst(a[1..], rest, sep);
      assert [a[0]] + a[1..] == a;
    }
  }

  lemma SplitOnce(a: string, b: string, sep: char)
    requires sep !in a && sep !in b
    ensures Split(a + [sep] + b, sep) == [a, b]
  {
    SplitAtFirst(a, b, sep);
    SplitWithoutSeparator(b, sep);
  }

  /** A token issued for a room and a player neither of whose ids holds a colon
      verifies exactly for that room and that player. */
  lemma IssuedTokenVerifies(roomId: string, playerId: string, claimedRoom: string, claimedPlayer: string)
    requires ':' !in roomId && ':' !in playerId
    ensures VerifyToken(Some(Payload(roomId, playerId)), claimedRoom, claimedPlayer)
            == Ok(roomId == claimedRoom && playerId == claimedPlayer)
  {
    assert Payload(roomId, playerId) == roomId + [':'] + playerId;
    SplitOnce(roomId, playerId, ':');
  }

  /** Splitting at any separator: the pieces of both sides, one after the other. */
  lemma {:induction false} SplitAround(x: string, y: string, sep: char)
    ensures Split(x + [sep] + y, sep) == Split(x, sep) + Split(y, sep)
  {
    if |x| == 0 {
      assert x + [sep] + y == [sep] + y;
      assert ([sep] + y)[1..] == y;
    } else {
      assert (x + [sep] + y)[1..] == x[1..] + [sep] + y;
      SplitAround(x[1..], y, sep);
      var rx, ry := Split(x[1..], sep), Split(y, sep);
      if x[0] == sep {
        assert Split(x, sep) == [""] + rx;
      } else {
        assert Split(x, sep) == [[x[0]] + rx[0]] + rx[1..];
        assert (rx + ry)[0] == rx[0] && (rx + ry)[1..] == rx[1..] + ry;
      }
    }
  }

  /** A colon in the player id makes verification of its own token, whatever
      room and player are claimed, fail with the uncaught unpacking error
      rather than return false. */
  lemma ColonInPlayerIdRaises(roomId: string, playerId: string, claimedRoom: string, claimedPlayer: string)
    requires ':' in playerId
    ensures VerifyToken(Some(Payload(roomId, playerId)), claimedRoom, claimedPlayer) == Err(MalformedPayload)
  {
    var k :| 0 <= k < |playerId| && playerId[k] == ':';
    assert playerId == playerId[..k] + [':'] + playerId[k + 1..];
    SplitAround(playerId[..k], playerId[k + 1..], ':');
    assert Payload(roomId, playerId) == roomId + [':'] + playerId;
    SplitAround(roomId, playerId, ':');
  }
}
