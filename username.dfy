/** The username rule both programs apply: the pattern `[a-zA-Z0-9_]+`. */
module Username {
  import opened Wrappers
  import opened JavaString

  /** One character of the class `[a-zA-Z0-9_]`. */
  predicate IsNameChar(c: char) {
    'a' <= c <= 'z' || 'A' <= c <= 'Z' || '0' <= c <= '9' || c == '_'
  }

  /** The language of `[a-zA-Z0-9_]+`: at least one character, all of the class. */
  predicate IsName(s: string) {
    |s| >= 1 && forall i :: 0 <= i < |s| ==> IsNameChar(s[i])
  }

  /** `s.matches("[a-zA-Z0-9_]+")` as the matcher runs it: one class character,
      then the `+` loop over the rest, the match having to reach the end. */
  predicate MatchesNamePattern(s: string)
    decreases |s|
  {
    |s| >= 1 && IsNameChar(s[0]) && (|s| == 1 || MatchesNamePattern(s[1..]))
  }

  /** The matcher accepts exactly the language of the pattern. */
  lemma {:induction false} MatchesNamePatternIff(s: string)
    ensures MatchesNamePattern(s) <==> IsName(s)
  {
    if |s| > 1 {
      MatchesNamePatternIff(s[1..]);
      assert forall i :: 1 <= i < |s| ==> s[i] == s[1..][i - 1];
    }
  }

  /** No name is blank: every class character lies above U+0020. */
  lemma NameIsNotBlank(s: string)
    requires IsName(s)
    ensures !IsBlank(s)
  {
    BlankIff(s);
    assert !IsTrimmable(s[0]);
  }

  /** The blank test and the matcher together accept exactly the names. */
  lemma NotBlankAndMatchesIff(s: string)
    ensures !IsBlank(s) && MatchesNamePattern(s) <==> IsName(s)
  {
    MatchesNamePatternIff(s);
    if IsName(s) {
      NameIsNotBlank(s);
    }
  }

  /** `Server.isValidUsername`: non-null, not blank after `trim`, and matching
      the pattern. The blank test is subsumed by the pattern. */
  function ServerIsValidUsername(username: Option<string>): (ok: bool)
    ensures ok <==> username.Some? && IsName(username.value)
  {
    if username.None? then false
    else
      NotBlankAndMatchesIff(username.value);
      !IsBlank(username.value) && MatchesNamePattern(username.value)
  }

  /** `Client.isValidUsername`: the pattern alone (its caller has already
      ruled out null). */
  function ClientIsValidUsername(username: string): (ok: bool)
    ensures ok <==> IsName(username)
  {
    MatchesNamePatternIff(username);
    MatchesNamePattern(username)
  }

  /** Empty and whitespace-only candidates are refused by the server. */
  lemma BlankNamesRejected(s: string)
    requires IsBlank(s)
    ensures !ServerIsValidUsername(Some(s))
  {
    if IsName(s) {
      NameIsNotBlank(s);
    }
  }
}
