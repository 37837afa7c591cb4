/** The parts of Python's `str` that the game relies on: `strip`, `lower` and
    `isalpha`. Only ASCII is modelled: whitespace is the ASCII subset of
    `str.isspace`, letters are A-Z and a-z, and lower-casing maps A-Z to a-z. */
module Text {

  /** ASCII characters for which `str.isspace` holds: tab, line feed, vertical tab,
      form feed, carriage return, the separators 0x1C-0x1F, and space. */
  predicate IsSpace(c: char) {
    c == ' ' || 9 <= c as int <= 13 || 28 <= c as int <= 31
  }

  predicate IsLetter(c: char) {
    'a' <= c <= 'z' || 'A' <= c <= 'Z'
  }

  predicate IsLowerLetter(c: char) {
    'a' <= c <= 'z'
  }

  /** `str.isalpha`: non-empty and made of letters only. */
  predicate IsAlpha(s: string) {
    |s| > 0 && forall k :: 0 <= k < |s| ==> IsLetter(s[k])
  }

  function LowerChar(c: char): char {
    if 'A' <= c <= 'Z' then (c as int + 32) as char else c
  }

  /** `str.lower`. */
  function Lower(s: string): (r: string)
    ensures |r| == |s|
  {
    seq(|s|, k requires 0 <= k < |s| => LowerChar(s[k]))
  }

  /** `str.lstrip()`: the longest suffix of `s` that does not start with whitespace. */
  function TrimStart(s: string): (r: string)
    ensures |r| <= |s| && r == s[|s| - |r|..]
    ensures forall k :: 0 <= k < |s| - |r| ==> IsSpace(s[k])
    ensures r == [] || !IsSpace(r[0])
  {
    if |s| > 0 && IsSpace(s[0]) then TrimStart(s[1..]) else s
  }

  /** `str.rstrip()`: the longest prefix of `s` that does not end with whitespace. */
  function TrimEnd(s: string): (r: string)
    ensures |r| <= |s| && r == s[..|r|]
    ensures forall k :: |r| <= k < |s| ==> IsSpace(s[k])
    ensures r == [] || !IsSpace(r[|r| - 1])
  {
    if |s| > 0 && IsSpace(s[|s| - 1]) then TrimEnd(s[..|s| - 1]) else s
  }

  /** `str.strip()`. */
  function Strip(s: string): string {
    TrimEnd(TrimStart(s))
  }

  /** Lower-casing keeps letters letters, non-letters unchanged, and is idempotent. */
  lemma LowerFacts(s: string)
    ensures forall k :: 0 <= k < |s| ==> (IsLetter(Lower(s)[k]) <==> IsLetter(s[k]))
    ensures forall k :: 0 <= k < |s| && IsLetter(s[k]) ==> IsLowerLetter(Lower(s)[k])
    ensures Lower(Lower(s)) == Lower(s)
  {
  }

  /** Leading whitespace before a non-space is exactly what `lstrip` removes. */
  lemma TrimStartAfter(pre: string, r: string)
    requires forall k :: 0 <= k < |pre| ==> IsSpace(pre[k])
    requires r != [] && !IsSpace(r[0])
    ensures TrimStart(pre + r) == r
  {
    var s := pre + r;
    assert s[|pre|] == r[0];
    assert |s| - |TrimStart(s)| == |pre|;
    assert s[|pre|..] == r;
  }

  /** Trailing whitespace after a non-space is exactly what `rstrip` removes. */
  lemma TrimEndBefore(w: string, post: string)
    requires forall k :: 0 <= k < |post| ==> IsSpace(post[k])
    requires w != [] && !IsSpace(w[|w| - 1])
    ensures TrimEnd(w + post) == w
  {
    var s := w + post;
    assert s[|w| - 1] == w[|w| - 1];
    assert |TrimEnd(s)| == |w|;
    assert s[..|w|] == w;
  }

  /** Stripping removes exactly the surrounding whitespace: `pre + w + post`
      strips to `w` whenever `pre` and `post` are whitespace and `w` neither
      starts nor ends with it. */
  lemma StripSurrounded(pre: string, w: string, post: string)
    requires forall k :: 0 <= k < |pre| ==> IsSpace(pre[k])
    requires forall k :: 0 <= k < |post| ==> IsSpace(post[k])
    requires w != [] && !IsSpace(w[0]) && !IsSpace(w[|w| - 1])
    ensures Strip(pre + w + post) == w
  {
    assert pre + w + post == pre + (w + post);
    TrimStartAfter(pre, w + post);
    TrimEndBefore(w, post);
  }

  /** Every character of `s` that is not whitespace survives stripping, at its
      own offset from the first character kept. */
  lemma StripKeeps(s: string, k: nat)
    requires k < |s| && !IsSpace(s[k])
    ensures var lead := |s| - |TrimStart(s)|;
            lead <= k < lead + |Strip(s)| && Strip(s)[k - lead] == s[k]
  {
    var t := TrimStart(s);
    var lead := |s| - |t|;
    // Every index before `lead` holds whitespace, so `k` is not one of them.
    assert lead <= k;
    assert t[k - lead] == s[k];
    var u := TrimEnd(t);
    // Every index of `t` from `|u|` on holds whitespace, so `k - lead` is not one.
    assert k - lead < |u|;
    assert u[k - lead] == t[k - lead];
  }
}
