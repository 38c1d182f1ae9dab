/** The password rule of registration: a regular expression made of four
    lookaheads (a lowercase letter, a digit, one of @#$%, an uppercase letter)
    followed by a dot repeated 6 to 16 times, matched against the whole
    password. It is written out here as predicates, together with the plain
    rule it amounts to. Characters are Unicode scalar values, so `.{6,16}` counts
    characters as `|s|` does. */
module CredentialPolicy {

  /** The characters the regex dot does not match outside DOTALL mode. */
  predicate IsLineTerminator(c: char) {
    c == '\n' || c == '\r' || c == '\U{0085}' || c == '\U{2028}' || c == '\U{2029}'
  }

  /** The four character classes the lookaheads ask for: [a-z], \d (ASCII
      digits without UNICODE_CHARACTER_CLASS), [@#$%] and [A-Z]. */
  datatype CharClass = Lower | Digit | Symbol | Upper

  predicate InClass(c: char, k: CharClass) {
    match k
    case Lower => 'a' <= c <= 'z'
    case Digit => '0' <= c <= '9'
    case Symbol => c == '@' || c == '#' || c == '$' || c == '%'
    case Upper => 'A' <= c <= 'Z'
  }

  predicate NoLineTerminator(s: string) {
    forall j :: 0 <= j < |s| ==> !IsLineTerminator(s[j])
  }

  /** Lookahead (?=.*K) at the start of the input: some character of class K
      follows a run of characters the dot matches. */
  predicate LookaheadFinds(s: string, k: CharClass) {
    exists i :: 0 <= i < |s| && InClass(s[i], k) && NoLineTerminator(s[..i])
  }

  /** `.{lo,hi}` consuming the whole input. */
  predicate DotRepeat(s: string, lo: nat, hi: nat) {
    lo <= |s| <= hi && NoLineTerminator(s)
  }

  /** RegexValidator.isValid with the password pattern: a full match. */
  predicate PasswordRegexMatches(s: string)
    ensures PasswordRegexMatches(s) ==> 6 <= |s| <= 16
    ensures PasswordRegexMatches(s) ==>
              Contains(s, Lower) && Contains(s, Digit) && Contains(s, Symbol) && Contains(s, Upper)
  {
    && LookaheadFinds(s, Lower)
    && LookaheadFinds(s, Digit)
    && LookaheadFinds(s, Symbol)
    && LookaheadFinds(s, Upper)
    && DotRepeat(s, 6, 16)
  }

  predicate Contains(s: string, k: CharClass) {
    exists i :: 0 <= i < |s| && InClass(s[i], k)
  }

  /** The password rule in plain words: 6 to 16 characters, no line
      terminator, and at least one lowercase letter, one digit, one of @#$%
      and one uppercase letter anywhere. */
  predicate PasswordPolicy(s: string) {
    && 6 <= |s| <= 16
    && NoLineTerminator(s)
    && Contains(s, Lower) && Contains(s, Digit) && Contains(s, Symbol) && Contains(s, Upper)
  }

  lemma LookaheadIsContains(s: string, k: CharClass)
    requires NoLineTerminator(s)
    ensures LookaheadFinds(s, k) <==> Contains(s, k)
  {
    if Contains(s, k) {
      var i :| 0 <= i < |s| && InClass(s[i], k);
      assert forall j :: 0 <= j < i ==> s[..i][j] == s[j];
      assert NoLineTerminator(s[..i]);
    }
  }

  /** The regex accepts exactly the strings the plain rule accepts. */
  lemma PasswordRegexIsPolicy(s: string)
    ensures PasswordRegexMatches(s) <==> PasswordPolicy(s)
  {
    if NoLineTerminator(s) {
      LookaheadIsContains(s, Lower);
      LookaheadIsContains(s, Digit);
      LookaheadIsContains(s, Symbol);
      LookaheadIsContains(s, Upper);
    }
  }

  /** Worked examples of the rule. "AB12@X" has every class except a
      lowercase letter, so the pattern refuses it. */
  lemma PasswordExamples()
    ensures PasswordRegexMatches("Abc123@")
    ensures !PasswordRegexMatches("abc123")
    ensures !PasswordRegexMatches("A")
    ensures !PasswordRegexMatches("AB12@X")
  {
    var good := "Abc123@";
    assert InClass(good[1], Lower) && NoLineTerminator(good[..1]);
    assert InClass(good[3], Digit) && NoLineTerminator(good[..3]);
    assert InClass(good[6], Symbol) && NoLineTerminator(good[..6]);
    assert InClass(good[0], Upper) && NoLineTerminator(good[..0]);
    PasswordRegexIsPolicy("abc123");
    PasswordRegexIsPolicy("AB12@X");
    assert !Contains("abc123", Upper);
    assert !Contains("AB12@X", Lower);
  }

  /** A password of the right length and classes that carries a line
      terminator is refused, since the dot does not match it. */
  lemma LineTerminatorRefused(s: string, j: nat)
    requires j < |s| && IsLineTerminator(s[j])
    ensures !PasswordRegexMatches(s)
  {
  }
}
