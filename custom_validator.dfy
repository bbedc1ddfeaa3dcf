/**
 The form-field validators of class `CustomValidator`. Each maps its input to
 `None` (the source's `null`, valid) or to the message of the first check in
 its cascade that fails. `!input` on a `string` is exactly the empty string.
 */
module CustomValidator {
  import opened Wrappers
  import opened Patterns

  // The messages, exactly as the source spells them.
  const FirstNameEmpty := "First Name cannot be empty!"
  const UsernameEmpty := "Username cannot be empty!"
  const UsernameTooShort := "Username must be at least 6 characters!"
  const UsernameIsEmail := "Username cannot be an email format!"
  const EmailEmpty := "Email cannot be empty!"
  const EmailInvalid := "Invalid email address!"
  const IdentifierEmpty := "Username or email is required!"
  const PasswordRequired := "Password is required!"
  const PasswordTooShort := "Password must be at least 6 characters!"
  const PasswordWeak := "Password must contain at least a Number, a Special Character, and an Upper-Case Letter!"
  const PasswordMismatch := "Password does not match!"
  const TodoNameEmpty := "Todo Name cannot be empty!"

  // ---------------------------------------------------------------------------
  // The validators
  // ---------------------------------------------------------------------------

  function FirstName(input: string): (r: Option<string>)
    ensures r == None <==> input != ""
    ensures r != None ==> r == Some(FirstNameEmpty)
  {
    if input == "" then Some(FirstNameEmpty) else None
  }

  function Username(input: string): (r: Option<string>)
    ensures r == None || r.value in {UsernameEmpty, UsernameTooShort, UsernameIsEmail}
  {
    if input == "" then Some(UsernameEmpty)
    else if !(input != "" && |input| >= 6) then Some(UsernameTooShort)
    else if input != "" && EmailLike(input) then Some(UsernameIsEmail)
    else None
  }

  function Email(input: string): (r: Option<string>)
    ensures r == None || r.value in {EmailEmpty, EmailInvalid}
  {
    if input == "" then Some(EmailEmpty)
    else if input != "" && !EmailLike(input) then Some(EmailInvalid)
    else None
  }

  function UserIdentifier(input: string): (r: Option<string>)
    ensures r == None || r.value in {IdentifierEmpty, UsernameTooShort, EmailInvalid}
    ensures r == Some(IdentifierEmpty) <==> input == ""
  {
    if input == "" then Some(IdentifierEmpty)
    else if '@' !in input && !(input != "" && !EmailLike(input) && |input| >= 6) then
      Some(UsernameTooShort)
    else if '@' in input && !(input != "" && EmailLike(input)) then Some(EmailInvalid)
    else None
  }

  function Password(input: string): (r: Option<string>)
    ensures r == None || r.value in {PasswordRequired, PasswordTooShort, PasswordWeak}
  {
    if input == "" then Some(PasswordRequired)
    else if |input| < 6 then Some(PasswordTooShort)
    else if |input| >= 6 && !PasswordOk(input) then Some(PasswordWeak)
    else None
  }

  function ConfirmPassword(password: string, confirmTarget: string): (r: Option<string>)
    ensures r == None <==> password == confirmTarget && password != ""
    ensures r != None ==> r == Some(PasswordMismatch)
  {
    if password != confirmTarget || password == "" || confirmTarget == "" then
      Some(PasswordMismatch)
    else None
  }

  function TodoName(input: string): (r: Option<string>)
    ensures r == None <==> input != ""
    ensures r != None ==> r == Some(TodoNameEmpty)
  {
    if input == "" then Some(TodoNameEmpty) else None
  }

  // ---------------------------------------------------------------------------
  // The cascades, stated without the regexes
  // ---------------------------------------------------------------------------

  /** Username: empty, then too short (even when email-shaped), then
      email-shaped, then valid. */
  lemma UsernameCascade(s: string)
    ensures s == "" ==> Username(s) == Some(UsernameEmpty)
    ensures 0 < |s| < 6 ==> Username(s) == Some(UsernameTooShort)
    ensures |s| >= 6 && (exists a, b :: EmailWitness(s, a, b)) ==> Username(s) == Some(UsernameIsEmail)
    ensures Username(s) == None <==> |s| >= 6 && !exists a, b :: EmailWitness(s, a, b)
  {
    EmailLikeIff(s);
  }

  /** A single-line username of six or more code units with an `@` followed,
      past at least one code unit, by a `.` that is not last is refused as an
      email format. */
  lemma UsernameRefusesEmailShape(s: string, a: int, b: int)
    requires |s| >= 6 && NoLineTerminator(s)
    requires 0 < a && a + 1 < b && b + 1 < |s| && s[a] == '@' && s[b] == '.'
    ensures Username(s) == Some(UsernameIsEmail)
  {
    EmailLikeOnOneLine(s, a, b);
  }

  /** Email: valid exactly when non-empty and email-shaped; any other
      non-empty input is an invalid address. */
  lemma EmailCascade(s: string)
    ensures s == "" ==> Email(s) == Some(EmailEmpty)
    ensures Email(s) == None <==> exists a, b :: EmailWitness(s, a, b)
    ensures s != "" && !(exists a, b :: EmailWitness(s, a, b)) ==> Email(s) == Some(EmailInvalid)
  {
    EmailLikeIff(s);
  }

  /** A valid email holds an `@` followed later by a `.`, with at least one
      code unit before, between and after them. */
  lemma EmailValidShape(s: string)
    requires Email(s) == None
    ensures exists a, b :: 0 < a && a + 1 < b && b + 1 < |s| && s[a] == '@' && s[b] == '.'
  {
    EmailLikeShape(s);
  }

  /** User identifier without `@`: valid iff at least six code units long;
      the email-shape conjunct of the second check never changes the outcome. */
  lemma UserIdentifierWithoutAt(s: string)
    requires s != "" && '@' !in s
    ensures UserIdentifier(s) == None <==> |s| >= 6
    ensures UserIdentifier(s) != None ==> UserIdentifier(s) == Some(UsernameTooShort)
  {
    if EmailLike(s) {
      EmailLikeHasAt(s);
    }
  }

  /** User identifier with `@`: valid iff email-shaped, else an invalid address. */
  lemma UserIdentifierWithAt(s: string)
    requires '@' in s
    ensures UserIdentifier(s) == None <==> exists a, b :: EmailWitness(s, a, b)
    ensures UserIdentifier(s) != None ==> UserIdentifier(s) == Some(EmailInvalid)
  {
    EmailLikeIff(s);
  }

  /** The whole truth table of the user identifier: the empty input gets the
      required message, a valid identifier has no `@` and six or more code
      units or is email-shaped, and every other input gets the message of
      UserIdentifierWithoutAt or UserIdentifierWithAt. */
  lemma UserIdentifierValid(s: string)
    ensures s == "" ==> UserIdentifier(s) == Some(IdentifierEmpty)
    ensures UserIdentifier(s) == None <==>
      ('@' !in s && |s| >= 6) || exists a, b :: EmailWitness(s, a, b)
  {
    EmailLikeIff(s);
    if EmailLike(s) {
      EmailLikeHasAt(s);
    }
  }

  /** Every valid email is accepted as a user identifier, and so is every
      valid username without an `@`. */
  lemma UserIdentifierAcceptsEmailsAndUsernames(s: string)
    ensures Email(s) == None ==> UserIdentifier(s) == None
    ensures Username(s) == None && '@' !in s ==> UserIdentifier(s) == None
  {
    if EmailLike(s) {
      EmailLikeHasAt(s);
    }
  }

  /** A valid username may still be refused as a user identifier: one with an
      `@` but no `.` after it. */
  lemma UsernameNotIdentifier()
    ensures Username("abcdef@x") == None
    ensures UserIdentifier("abcdef@x") == Some(EmailInvalid)
  {
    var s := "abcdef@x";
    assert s[6] == '@';
    if EmailLike(s) {
      EmailLikeHasDot(s);
      assert false;
    }
  }

  /** Password: empty, then shorter than six whatever the code units, then the
      shape; valid iff six or more code units in the strong shape. */
  lemma PasswordCascade(s: string)
    ensures s == "" ==> Password(s) == Some(PasswordRequired)
    ensures 0 < |s| < 6 ==> Password(s) == Some(PasswordTooShort)
    ensures |s| >= 6 && !StrongPassword(s) ==> Password(s) == Some(PasswordWeak)
    ensures Password(s) == None <==> |s| >= 6 && StrongPassword(s)
  {
    PasswordOkIff(s);
  }

  /** No valid password contains a hyphen. */
  lemma PasswordRejectsHyphen(s: string)
    requires '-' in s
    ensures Password(s) != None
  {
    HyphenFailsPassword(s);
  }

  /** The weak-password message omits the lower-case requirement: a password
      with a number, a special character and an upper-case letter but no
      lower-case letter still gets it. */
  lemma PasswordNeedsLowerCase()
    ensures Password("ABCDEF1!") == Some(PasswordWeak)
  {
    var s := "ABCDEF1!";
    PasswordOkIff(s);
    assert !Contains(s, Lower);
  }

  /** Confirmation does not depend on the order of its arguments. */
  lemma ConfirmPasswordSymmetric(p: string, c: string)
    ensures ConfirmPassword(p, c) == ConfirmPassword(c, p)
  {
  }

  /** Each validator answers with its own field's messages only: the messages
      of different fields never coincide, except where the source reuses one. */
  lemma MessagesDistinct()
    ensures UsernameEmpty != FirstNameEmpty && UsernameEmpty != TodoNameEmpty
    ensures |{FirstNameEmpty, UsernameEmpty, UsernameTooShort, UsernameIsEmail, EmailEmpty,
              EmailInvalid, IdentifierEmpty, PasswordRequired, PasswordTooShort,
              PasswordWeak, PasswordMismatch, TodoNameEmpty}| == 12
  {
  }

  // ---------------------------------------------------------------------------
  // Particular inputs
  // ---------------------------------------------------------------------------

  /** An email-shaped string of five code units gets the length message. */
  lemma ShortEmailShapedUsername()
    ensures EmailLike("a@b.c")
    ensures Username("a@b.c") == Some(UsernameTooShort)
  {
    EmailLikeOnOneLine("a@b.c", 1, 3);
  }

  lemma PasswordExamples()
    ensures Password("abc12") == Some(PasswordTooShort)
    ensures Password("Abcdef1!") == None
    ensures Password("abcdefg") == Some(PasswordWeak)
  {
    var good := "Abcdef1!";
    assert InClass(good[6], Digit) && InClass(good[1], Lower);
    assert InClass(good[0], Upper) && InClass(good[7], Symbol);
    assert forall k :: 0 <= k < |good| ==> InClass(good[k], Allowed);
    PasswordOkIff(good);
    var weak := "abcdefg";
    assert forall k :: 0 <= k < |weak| ==> 'a' <= weak[k] <= 'g';
    assert !Contains(weak, Digit);
  }

  lemma ConfirmPasswordExamples()
    ensures ConfirmPassword("Abc123!", "Abc123!") == None
    ensures ConfirmPassword("Abc123!", "Abc124!") == Some(PasswordMismatch)
  {
    assert "Abc123!"[5] != "Abc124!"[5];
  }

  lemma UserIdentifierExamples()
    ensures UserIdentifier("short") == Some(UsernameTooShort)
    ensures UserIdentifier("a@b.com") == None
    ensures UserIdentifier("not-an-email@@") == Some(EmailInvalid)
  {
    EmailLikeOnOneLine("a@b.com", 1, 3);
    assert "a@b.com"[1] == '@';
    var bad := "not-an-email@@";
    assert bad[12] == '@';
    if EmailLike(bad) {
      EmailLikeHasDot(bad);
      assert false;
    }
  }

}
