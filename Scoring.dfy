/** The per-letter scorer `score_guess` (server/game.py). Both words are
    lower-cased; a first pass marks the positions where they agree as hits, a
    second pass marks every other position present when its letter occurs
    anywhere in the answer and miss otherwise. Unlike the duplicate-aware rule
    described in the file's header comment, no count of remaining letters is
    kept; CanonicalMarks states that rule so that the two can be compared. */
module Scoring {
  import opened Text
  import opened Models

  /** The mark position i receives, for lower-cased answer a and guess g. */
  function MarkAt(a: string, g: string, i: nat): Mark
    requires i < |a| && i < |g|
  {
    if g[i] == a[i] then Hit else if g[i] in a then Present else Miss
  }

  /** The five marks `score_guess(answer, guess)` returns. Only the first five
      positions are scored; the whole answer is searched for present letters. */
  function Marks(answer: string, guess: string): (m: seq<Mark>)
    requires |answer| >= 5 && |guess| >= 5
    ensures |m| == 5
  {
    var a, g := Lower(answer), Lower(guess);
    seq(5, i requires 0 <= i < 5 => MarkAt(a, g, i))
  }

  /** The win test of `submit_guess`: every mark is a hit. */
  predicate AllHit(marks: seq<Mark>) {
    forall k :: 0 <= k < |marks| ==> marks[k] == Hit
  }

  /** `score_guess` as written: a list of five misses, then the two index loops. */
  method ScoreGuess(answer: string, guess: string) returns (marks: seq<Mark>)
    requires |answer| >= 5 && |guess| >= 5
    ensures marks == Marks(answer, guess)
  {
    var a := Lower(answer);
    var g := Lower(guess);
    var m := new Mark[5](_ => Miss);
    // First pass: mark hits.
    for i := 0 to 5
      invariant forall k :: 0 <= k < i ==> m[k] == (if g[k] == a[k] then Hit else Miss)
      invariant forall k :: i <= k < 5 ==> m[k] == Miss
    {
      if g[i] == a[i] {
        m[i] := Hit;
      }
    }
    // Second pass: every position that is not a hit is present when its letter
    // occurs in the answer.
    for i := 0 to 5
      invariant forall k :: 0 <= k < i ==> m[k] == MarkAt(a, g, k)
      invariant forall k :: i <= k < 5 ==> m[k] == (if g[k] == a[k] then Hit else Miss)
    {
      if m[i] == Hit {
        continue;
      }
      var ch := g[i];
      if ch in a {
        m[i] := Present;
      } else {
        m[i] := Miss;
      }
    }
    marks := m[..];
  }

  /** Position i is a hit exactly where the lower-cased words agree; any other
      position is present exactly when its letter occurs in the answer, and a
      miss otherwise. */
  lemma MarkMeaning(answer: string, guess: string, i: nat)
    requires |answer| >= 5 && |guess| >= 5 && i < 5
    ensures Marks(answer, guess)[i] == Hit <==> Lower(guess)[i] == Lower(answer)[i]
    ensures Marks(answer, guess)[i] == Present <==>
              Lower(guess)[i] != Lower(answer)[i] && Lower(guess)[i] in Lower(answer)
    ensures Marks(answer, guess)[i] == Miss <==> Lower(guess)[i] !in Lower(answer)
  {
  }

  /** All five marks are hits exactly when the two five-letter words are equal
      ignoring case. */
  lemma AllHitIffSameWord(answer: string, guess: string)
    requires |answer| == 5 && |guess| == 5
    ensures AllHit(Marks(answer, guess)) <==> Lower(answer) == Lower(guess)
  {
    if AllHit(Marks(answer, guess)) {
      forall i | 0 <= i < 5 ensures Lower(answer)[i] == Lower(guess)[i] {
        MarkMeaning(answer, guess, i);
      }
    }
  }

  /** No count limit: two non-hit positions holding the same letter always get
      the same mark, however often the answer holds that letter. */
  lemma SameLetterSameMark(answer: string, guess: string, i: nat, j: nat)
    requires |answer| >= 5 && |guess| >= 5 && i < 5 && j < 5
    requires Lower(guess)[i] == Lower(guess)[j]
    requires Marks(answer, guess)[i] != Hit && Marks(answer, guess)[j] != Hit
    ensures Marks(answer, guess)[i] == Marks(answer, guess)[j]
  {
  }

  // ---------------------------------------------------------------------------
  // The duplicate-aware rule of the header comment, for comparison.

  /** Occurrences of letter c among the first n positions of x at which x and y
      differ, that is, positions that are not hits. */
  function Unmatched(x: string, y: string, c: char, n: nat): nat
    requires n <= |x| && n <= |y|
  {
    if n == 0 then 0
    else Unmatched(x, y, c, n - 1) + (if x[n - 1] == c && x[n - 1] != y[n - 1] then 1 else 0)
  }

  lemma {:induction false} UnmatchedPositive(x: string, y: string, c: char, n: nat)
    requires n <= |x| && n <= |y|
    ensures Unmatched(x, y, c, n) > 0 <==> exists k :: 0 <= k < n && x[k] == c && x[k] != y[k]
  {
    if n > 0 {
      UnmatchedPositive(x, y, c, n - 1);
    }
  }

  /** The two-pass rule with a table of remaining letters: hits first; then,
      left to right, a non-hit position is present while the answer still has
      an unmatched copy of its letter, each present using up one copy. */
  function CanonicalMarkAt(a: string, g: string, i: nat): Mark
    requires |a| == 5 && |g| == 5 && i < 5
  {
    if g[i] == a[i] then Hit
    else if Unmatched(g, a, g[i], i) < Unmatched(a, g, g[i], 5) then Present
    else Miss
  }

  function CanonicalMarks(answer: string, guess: string): (m: seq<Mark>)
    requires |answer| == 5 && |guess| == 5
    ensures |m| == 5
  {
    var a, g := Lower(answer), Lower(guess);
    seq(5, i requires 0 <= i < 5 => CanonicalMarkAt(a, g, i))
  }

  predicate DistinctLetters(w: string) {
    forall i, j :: 0 <= i < j < |w| ==> w[i] != w[j]
  }

  /** When the guess repeats no letter, the scorer agrees with the two-pass rule. */
  lemma AgreesWithCanonicalWithoutRepeats(answer: string, guess: string)
    requires |answer| == 5 && |guess| == 5
    requires DistinctLetters(Lower(guess))
    ensures Marks(answer, guess) == CanonicalMarks(answer, guess)
  {
    var a, g := Lower(answer), Lower(guess);
    forall i | 0 <= i < 5
      ensures MarkAt(a, g, i) == CanonicalMarkAt(a, g, i)
    {
      if g[i] != a[i] {
        UnmatchedPositive(g, a, g[i], i);
        UnmatchedPositive(a, g, g[i], 5);
        if g[i] in a {
          var k :| 0 <= k < 5 && a[k] == g[i];
          assert a[k] != g[k];
        }
      }
    }
  }

  /** With a repeated guess letter the two differ: against "lemon", the guess
      "level" gets present marks for its second "e" and "l", although both
      letters of the answer are already used up by hits. */
  lemma RepeatedLetterOvercounts()
    ensures Marks("lemon", "level") == [Hit, Hit, Miss, Present, Present]
    ensures CanonicalMarks("lemon", "level") == [Hit, Hit, Miss, Miss, Miss]
  {
    assert Lower("lemon") == "lemon";
    assert Lower("level") == "level";
    // Both "e" and "l" of the answer are matched by hits, so none is left over.
    assert Unmatched("lemon", "level", 'e', 5) == 0;
    assert Unmatched("lemon", "level", 'l', 5) == 0;
    assert Unmatched("lemon", "level", 'v', 5) == 0;
  }
}
