/** The request and response data of the game server (server/models.py): the
    three feedback marks, a scored guess, and the guess validator. */
module Models {
  import opened Wrappers
  import opened Text

  /** The `GuessMark` literal set: every mark is one of these three. */
  datatype Mark = Hit | Present | Miss

  /** A scored guess: the guess as submitted and its marks. */
  datatype GuessFeedback = GuessFeedback(guess: string, marks: seq<Mark>)

  /** What the validator hands on: five lower-case ASCII letters. */
  predicate IsWord(w: string) {
    |w| == 5 && forall k :: 0 <= k < 5 ==> IsLowerLetter(w[k])
  }

  const GuessError := "guess must be a 5-letter English word"

  /** `GuessRequest.validate_guess`: strip surrounding whitespace, lower-case, and
      accept only five letters. */
  function ValidateGuess(v: string): (r: Result<string, string>)
    ensures r.Ok? <==> |Strip(v)| == 5 && IsAlpha(Strip(v))
    ensures r.Ok? ==> IsWord(r.value) && r.value == Lower(Strip(v))
    ensures r.Err? ==> r.error == GuessError
  {
    var s := Strip(v);
    var w := Lower(s);
    LowerFacts(s);
    assert IsAlpha(w) <==> IsAlpha(s);
    assert IsAlpha(w) ==> forall k :: 0 <= k < |w| ==> IsLowerLetter(w[k]);
    if |w| != 5 || !IsAlpha(w) then Err(GuessError) else Ok(w)
  }

  /** Any five letters, surrounded by any whitespace, are accepted as the
      lower-cased letters. */
  lemma ValidateAccepts(pre: string, w: string, post: string)
    requires forall k :: 0 <= k < |pre| ==> IsSpace(pre[k])
    requires forall k :: 0 <= k < |post| ==> IsSpace(post[k])
    requires |w| == 5 && IsAlpha(w)
    ensures ValidateGuess(pre + w + post) == Ok(Lower(w))
  {
    StripSurrounded(pre, w, post);
  }

  /** Conversely, an accepted input is five letters surrounded by whitespace, and
      the accepted value is those letters lower-cased. */
  lemma ValidateAcceptedShape(v: string)
    requires ValidateGuess(v).Ok?
    ensures var lead := |v| - |TrimStart(v)|;
            && lead + 5 <= |v|
            && (forall k :: 0 <= k < lead ==> IsSpace(v[k]))
            && (forall k :: lead + 5 <= k < |v| ==> IsSpace(v[k]))
            && IsAlpha(v[lead..lead + 5])
            && ValidateGuess(v).value == Lower(v[lead..lead + 5])
  {
    var t := TrimStart(v);
    var lead := |v| - |t|;
    assert Strip(v) == t[..5] == v[lead..lead + 5];
  }

  /** Input whose stripped length is not five is rejected. */
  lemma ValidateRejectsLength(v: string)
    requires |Strip(v)| != 5
    ensures ValidateGuess(v) == Err(GuessError)
  {
  }

  /** Input holding any character that is neither a letter nor whitespace is
      rejected, wherever that character stands. */
  lemma ValidateRejectsNonLetter(v: string, k: nat)
    requires k < |v| && !IsLetter(v[k]) && !IsSpace(v[k])
    ensures ValidateGuess(v) == Err(GuessError)
  {
    StripKeeps(v, k);
  }

  /** Validating an accepted value again returns it unchanged. */
  lemma ValidateIdempotent(v: string)
    requires ValidateGuess(v).Ok?
    ensures ValidateGuess(ValidateGuess(v).value) == ValidateGuess(v)
  {
    var w := ValidateGuess(v).value;
    StripSurrounded([], w, []);
    assert [] + w + [] == w;
    LowerFacts(Strip(v));
  }
}
