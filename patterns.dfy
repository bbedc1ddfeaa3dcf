/**
 The two fixed regular expressions the validators test against, written out as
 predicates with the meaning a JavaScript regex engine gives them (no `m`, `s`,
 `i` or `u` flag), each with a lemma that reduces it to a plain description.
 A Dafny `char` is a Unicode scalar value; for code points up to U+FFFF other
 than surrogates it is one UTF-16 code unit, which is what the regexes step
 over (the README's "Left out" section says what that leaves out).
 */
module Patterns {

  /** The code units that JavaScript's `.` does not match (without the `s` flag). */
  predicate IsLineTerminator(c: char) {
    c == '\n' || c == '\r' || c == '\U{2028}' || c == '\U{2029}'
  }

  /** Every code unit of `t` is matched by `.`. */
  predicate NoLineTerminator(t: string) {
    forall k :: 0 <= k < |t| ==> !IsLineTerminator(t[k])
  }

  // ---------------------------------------------------------------------------
  // The email shape `/.+@.+\..+/`
  // ---------------------------------------------------------------------------

  /** `t`, as a whole, is matched by `.+@.+\..+`: t = X '@' Y '.' Z with X, Y, Z
      non-empty runs of code units other than line terminators. */
  predicate FullEmailMatch(t: string) {
    NoLineTerminator(t) &&
    exists a | 0 < a < |t| :: t[a] == '@' && exists b | a + 1 < b < |t| - 1 :: t[b] == '.'
  }

  /** `/.+@.+\..+/.test(s)`: the pattern is not anchored, so the test succeeds
      iff some substring of `s` is matched in full. */
  predicate EmailLike(s: string)
    ensures EmailLike(s) ==> '@' in s && '.' in s && |s| >= 5
  {
    exists i, j | 0 <= i <= j <= |s| :: FullEmailMatch(s[i..j])
  }

  /** The shortest match around an `@` at `a` and a `.` at `b`: one code unit
      before the `@`, the whole stretch between them, and one code unit after
      the `.`, none of them a line terminator. */
  predicate EmailWitness(s: string, a: int, b: int) {
    0 < a && a + 1 < b && b + 1 < |s| && s[a] == '@' && s[b] == '.' &&
    NoLineTerminator(s[a - 1..b + 2])
  }

  /** The regex test holds exactly when a shortest match exists. */
  lemma EmailLikeIff(s: string)
    ensures EmailLike(s) <==> exists a, b :: EmailWitness(s, a, b)
  {
    if EmailLike(s) {
      var i, j :| 0 <= i <= j <= |s| && FullEmailMatch(s[i..j]);
      var t := s[i..j];
      var a' :| 0 < a' < |t| && t[a'] == '@' && exists b | a' + 1 < b < |t| - 1 :: t[b] == '.';
      var b' :| a' + 1 < b' < |t| - 1 && t[b'] == '.';
      var a, b := i + a', i + b';
      assert s[a - 1..b + 2] == t[a' - 1..b' + 2];
      assert EmailWitness(s, a, b);
    }
    if exists a, b :: EmailWitness(s, a, b) {
      var a, b :| EmailWitness(s, a, b);
      var t := s[a - 1..b + 2];
      assert t[1] == '@' && t[b - a + 1] == '.';
      assert FullEmailMatch(t);
    }
  }

  /** Whatever the test accepts has an `@` with at least one code unit before
      it, then at least one code unit, then a `.`, then at least one code unit. */
  lemma EmailLikeShape(s: string)
    requires EmailLike(s)
    ensures exists a, b :: 0 < a && a + 1 < b && b + 1 < |s| && s[a] == '@' && s[b] == '.'
  {
    EmailLikeIff(s);
    var a, b :| EmailWitness(s, a, b);
    assert s[a] == '@' && s[b] == '.';
  }

  /** The test never accepts a string without an `@` (or shorter than five). */
  lemma EmailLikeHasAt(s: string)
    requires EmailLike(s)
    ensures '@' in s && |s| >= 5
  {
    EmailLikeShape(s);
    var a, b :| 0 < a && a + 1 < b && b + 1 < |s| && s[a] == '@' && s[b] == '.';
    assert s[a] == '@';
  }

  /** The test never accepts a string without a `.`. */
  lemma EmailLikeHasDot(s: string)
    requires EmailLike(s)
    ensures '.' in s
  {
    EmailLikeShape(s);
    var a, b :| 0 < a && a + 1 < b && b + 1 < |s| && s[a] == '@' && s[b] == '.';
    assert s[b] == '.';
  }

  /** On a single line, the shape of EmailLikeShape is also enough. */
  lemma EmailLikeOnOneLine(s: string, a: int, b: int)
    requires NoLineTerminator(s)
    requires 0 < a && a + 1 < b && b + 1 < |s| && s[a] == '@' && s[b] == '.'
    ensures EmailLike(s)
  {
    assert EmailWitness(s, a, b);
    EmailLikeIff(s);
  }

  // ---------------------------------------------------------------------------
  // The password shape
  // `/^(?=.*[0-9])(?=.*[a-z])(?=.*[A-Z])(?=.*[!@#$%^&*)(+=._-`])([a-zA-Z0-9!@#$%^&*)(+=._-`]+)$/`
  // ---------------------------------------------------------------------------

  /** The character classes of the password pattern. */
  datatype CharClass = Digit | Lower | Upper | Symbol | Allowed

  /** `[!@#$%^&*)(+=._-`]`: thirteen single members, then `_-`` which is the
      range U+005F..U+0060 (`_` and the backtick). The hyphen is not a member. */
  predicate IsSymbol(c: char)
    ensures IsSymbol(c) ==> c != '-' && !IsLineTerminator(c)
  {
    c == '!' || c == '@' || c == '#' || c == '$' || c == '%' || c == '^' || c == '&' ||
    c == '*' || c == ')' || c == '(' || c == '+' || c == '=' || c == '.' ||
    ('_' <= c <= '`')
  }

  /** The symbol class, listed member by member: fifteen code units. */
  lemma SymbolClassMembers(c: char)
    ensures IsSymbol(c) <==> c in "!@#$%^&*)(+=._`"
  {
  }

  predicate InClass(c: char, cls: CharClass) {
    match cls
    case Digit => '0' <= c <= '9'
    case Lower => 'a' <= c <= 'z'
    case Upper => 'A' <= c <= 'Z'
    case Symbol => IsSymbol(c)
    case Allowed => 'a' <= c <= 'z' || 'A' <= c <= 'Z' || '0' <= c <= '9' || IsSymbol(c)
  }

  /** `(?=.*[C])` at the start of `s`: some member of C is reached by `.*`,
      that is, with no line terminator before it. */
  predicate LookaheadFinds(s: string, cls: CharClass) {
    exists k | 0 <= k < |s| :: InClass(s[k], cls) && NoLineTerminator(s[..k])
  }

  /** `^...([a-zA-Z0-9...]+)$`: one or more allowed code units up to the end. */
  predicate AllAllowed(s: string) {
    |s| > 0 && forall k | 0 <= k < |s| :: InClass(s[k], Allowed)
  }

  /** The password regex test (`^` and `$` anchor at the ends of the string). */
  predicate PasswordOk(s: string)
    ensures PasswordOk(s) ==> NoLineTerminator(s) && '-' !in s && |s| >= 4
  {
    LookaheadFinds(s, Digit) && LookaheadFinds(s, Lower) &&
    LookaheadFinds(s, Upper) && LookaheadFinds(s, Symbol) &&
    AllAllowed(s)
  }

  /** `s` has a code unit of class `cls` somewhere. */
  predicate Contains(s: string, cls: CharClass) {
    exists k | 0 <= k < |s| :: InClass(s[k], cls)
  }

  /** The password shape in plain terms: a digit, a lower-case letter, an
      upper-case letter and a symbol somewhere, and allowed code units only. */
  predicate StrongPassword(s: string) {
    Contains(s, Digit) && Contains(s, Lower) && Contains(s, Upper) && Contains(s, Symbol) &&
    forall k :: 0 <= k < |s| ==> InClass(s[k], Allowed)
  }

  /** No allowed password code unit is a line terminator. */
  lemma AllowedIsOneLine(s: string)
    requires AllAllowed(s)
    ensures NoLineTerminator(s)
  {
    forall k | 0 <= k < |s| ensures !IsLineTerminator(s[k]) {
      assert InClass(s[k], Allowed);
    }
  }

  /** The regex test holds exactly when `s` has a digit, a lower-case letter,
      an upper-case letter and a symbol, and uses allowed code units only. */
  lemma PasswordOkIff(s: string)
    ensures PasswordOk(s) <==> StrongPassword(s)
  {
    if forall k :: 0 <= k < |s| ==> InClass(s[k], Allowed) {
      if |s| > 0 {
        AllowedIsOneLine(s);
        forall cls | Contains(s, cls) ensures LookaheadFinds(s, cls) {
          var k :| 0 <= k < |s| && InClass(s[k], cls);
          assert forall m :: 0 <= m < k ==> s[..k][m] == s[m];
          assert NoLineTerminator(s[..k]);
        }
      }
    }
  }

  /** A hyphen anywhere makes the password test fail. */
  lemma HyphenFailsPassword(s: string)
    requires '-' in s
    ensures !PasswordOk(s)
  {
    var k :| 0 <= k < |s| && s[k] == '-';
    assert !InClass(s[k], Allowed);
  }

}
