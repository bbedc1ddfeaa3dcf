# CustomValidator — a verified model of the form-field validators

This project models the form-field validators of the todo application's web
front end. These are the seven static methods of `CustomValidator`:
`firstName`, `username`, `email`, `userIdentifier`, `password`,
`confirmPassword` and `todoName`. Each one maps its input string to `null`
(valid) or to a fixed English message. The message comes from the first check
in an ordered cascade that fails. Each validator is a Dafny function returning
`Option<string>`: `None` is the source's `null`, and `Some(m)` carries the
message with the exact text of the source.

The two regular expressions the validators use are written out as predicates
in module `Patterns`. They give each regex the meaning a JavaScript engine
gives it.

- `EmailLike` is `/.+@.+\..+/.test`. The pattern is not anchored, so the test
  is true when some substring is matched in full (`FullEmailMatch`). JavaScript's
  `.` matches every code unit except `\n`, `\r`, U+2028 and U+2029.
  `EmailLikeIff` shows that this is the same as having a shortest match
  (`EmailWitness`): an `@` at `a` and a `.` at `b` with `0 < a`, `a + 1 < b`
  and `b + 1 < |s|`, where no code unit from `a - 1` to `b + 1` is a line
  terminator.
- `PasswordOk` is the anchored password regex. Each `(?=.*[C])` lookahead
  needs some member of `C` with no line terminator before it, and the body
  needs one or more allowed code units. `PasswordOkIff` shows that this is the
  same as: the string contains a digit, a lower-case letter, an upper-case letter
  and a symbol, and it uses only allowed code units.

The symbol class `[!@#$%^&*)(+=._-`]` follows regex rules. Inside it, `_-``
is the range U+005F..U+0060, so the class holds `! @ # $ % ^ & * ) ( + = .`,
`_` and the backtick. The hyphen is not in the class. Read as a list, the class looks as if `-`
were meant to be in it; as a regex it is not. This model follows the regex, so
any password with a hyphen is refused (`PasswordRejectsHyphen`).

The `g` flag on the password regex has no effect between calls. A regex literal
creates a new object each time it is evaluated, so no `lastIndex` carries over.
The validators are Dafny functions, so each one always gives the same result
for the same input.

A Dafny `char` is a Unicode scalar value. For code points up to U+FFFF
(surrogates excluded) that is one UTF-16 code unit, which is what the source's
`.length` counts and what the regexes step over; see "## Left out" for the rest.

Files: `option.dfy` (module `Wrappers`, the `Option` type), `patterns.dfy`
(module `Patterns`, the two regexes), `custom_validator.dfy` (module
`CustomValidator`, the validators and their properties).

## Model

| member | source | states |
|---|---|---|
| `Patterns.EmailLike` | src/utils/custom-validator.ts:17 | `/.+@.+\..+/.test`: some substring is matched in full by `.+@.+\..+`, where `.` excludes `\n`, `\r`, U+2028 and U+2029; a string it accepts contains `@` and `.` and has at least five code units |
| `Patterns.IsSymbol` | src/utils/custom-validator.ts:56 | the class `[!@#$%^&*)(+=._-`]`: thirteen single members and the range `_-`` (U+005F..U+0060); no member is `-` or a line terminator |
| `Patterns.SymbolClassMembers` | src/utils/custom-validator.ts:56 | the class is exactly the fifteen code units `! @ # $ % ^ & * ) ( + = . _` and backtick |
| `Patterns.PasswordOk` | src/utils/custom-validator.ts:56 | the four lookaheads `(?=.*[C])` (a member of C with no line terminator before it) and the anchored body of one or more allowed code units; a string it accepts has no line terminator, no `-` and at least four code units |
| `Patterns.EmailLikeIff` | src/utils/custom-validator.ts:17 | the unanchored email regex matches iff there is an `@` at `a` and a `.` at `b` with a code unit before the `@`, at least one between, one after the `.`, and no line terminator from `a-1` to `b+1` |
| `Patterns.EmailLikeShape` | src/utils/custom-validator.ts:27 | every email-shaped string has an `@` with at least one code unit before it, then at least one code unit, then a `.`, then at least one code unit |
| `Patterns.EmailLikeHasAt` | src/utils/custom-validator.ts:39 | an email-shaped string contains `@` and has at least five code units |
| `Patterns.EmailLikeHasDot` | src/utils/custom-validator.ts:42 | an email-shaped string contains `.` |
| `Patterns.EmailLikeOnOneLine` | src/utils/custom-validator.ts:17 | on a string without line terminators, that `@`/`.` shape is enough for the regex to match |
| `Patterns.AllowedIsOneLine` | src/utils/custom-validator.ts:56 | a string of allowed password code units has no line terminator, so the `.*` of the lookaheads can reach every position |
| `Patterns.PasswordOkIff` | src/utils/custom-validator.ts:56 | the anchored password regex matches iff the string has a digit, a lower-case letter, an upper-case letter and a class symbol, and uses only `[a-zA-Z0-9]` and the symbol class |
| `Patterns.HyphenFailsPassword` | src/utils/custom-validator.ts:56 | `-` is not in either class (`_-`` is a range), so no string containing it matches |
| `CustomValidator.FirstName` | src/utils/custom-validator.ts:4-10 | "First Name cannot be empty!" exactly for the empty input, `null` for every non-empty input |
| `CustomValidator.Username` | src/utils/custom-validator.ts:12-22 | answers only with the three username messages |
| `CustomValidator.Email` | src/utils/custom-validator.ts:24-32 | answers only with the two email messages |
| `CustomValidator.UserIdentifier` | src/utils/custom-validator.ts:34-47 | answers only with its empty message, the username length message or the invalid-email message; "Username or email is required!" exactly for the empty input |
| `CustomValidator.Password` | src/utils/custom-validator.ts:49-64 | answers only with the three password messages |
| `CustomValidator.ConfirmPassword` | src/utils/custom-validator.ts:66-72 | `null` iff both strings are equal and non-empty, otherwise "Password does not match!" |
| `CustomValidator.TodoName` | src/utils/custom-validator.ts:74-80 | "Todo Name cannot be empty!" exactly for the empty input, `null` for every non-empty input |
| `CustomValidator.UsernameCascade` | src/utils/custom-validator.ts:12-22 | empty gives the empty message; lengths 1 to 5 give the length message, email-shaped or not; six or more and email-shaped gives the email-format message; `null` iff at least six code units and no email witness |
| `CustomValidator.UsernameRefusesEmailShape` | src/utils/custom-validator.ts:17-18 | a single-line string of six or more code units with the `@`/`.` shape is refused as an email format |
| `CustomValidator.ShortEmailShapedUsername` | src/utils/custom-validator.ts:15-18 | `a@b.c` is email-shaped but gets the length message, because the length check comes first |
| `CustomValidator.EmailCascade` | src/utils/custom-validator.ts:24-32 | empty gives "Email cannot be empty!"; `null` iff an email witness exists; any other non-empty input gets "Invalid email address!" |
| `CustomValidator.EmailValidShape` | src/utils/custom-validator.ts:27-31 | a valid email has an `@` followed later by a `.`, with at least one code unit before, between and after |
| `CustomValidator.UserIdentifierWithoutAt` | src/utils/custom-validator.ts:37-41 | on a non-empty input without `@`: `null` iff length is at least 6, otherwise the length message; the email-shape conjunct on line 39 never changes the outcome |
| `CustomValidator.UserIdentifierWithAt` | src/utils/custom-validator.ts:42-46 | on an input with `@`: `null` iff an email witness exists, otherwise "Invalid email address!" |
| `CustomValidator.UserIdentifierValid` | src/utils/custom-validator.ts:34-47 | the empty input gets "Username or email is required!"; `null` iff (no `@` and length at least 6) or email-shaped |
| `CustomValidator.UserIdentifierAcceptsEmailsAndUsernames` | src/utils/custom-validator.ts:12-47 | every valid email is a valid user identifier, and so is every valid username without `@` |
| `CustomValidator.UsernameNotIdentifier` | src/utils/custom-validator.ts:12-47 | `abcdef@x` is a valid username but an invalid user identifier (it has `@` and no `.`) |
| `CustomValidator.UserIdentifierExamples` | src/utils/custom-validator.ts:34-47 | `short` gets the length message, `a@b.com` is valid, `not-an-email@@` gets "Invalid email address!" |
| `CustomValidator.PasswordCascade` | src/utils/custom-validator.ts:49-64 | empty gives "Password is required!"; lengths 1 to 5 give the length message whatever the code units; six or more is `null` iff it has a digit, a lower-case letter, an upper-case letter and a symbol and uses only allowed code units, otherwise the composite message |
| `CustomValidator.PasswordRejectsHyphen` | src/utils/custom-validator.ts:56-60 | no password containing `-` is valid |
| `CustomValidator.PasswordNeedsLowerCase` | src/utils/custom-validator.ts:56-60 | `ABCDEF1!` has everything the message names but no lower-case letter, and still gets the composite message |
| `CustomValidator.PasswordExamples` | src/utils/custom-validator.ts:49-64 | `abc12` gets the length message, `Abcdef1!` is valid, `abcdefg` gets the composite message |
| `CustomValidator.ConfirmPasswordSymmetric` | src/utils/custom-validator.ts:66-72 | the confirmation result does not depend on the order of the two arguments |
| `CustomValidator.ConfirmPasswordExamples` | src/utils/custom-validator.ts:66-72 | `Abc123!` confirmed by itself is valid; confirmed by `Abc124!` it gets the mismatch message |
| `CustomValidator.MessagesDistinct` | src/utils/custom-validator.ts:4-80 | the twelve message texts are pairwise distinct, so the username empty message is not the first-name or todo-name one |

## Left out

- Code points above U+FFFF: Dafny's `char` is a Unicode scalar value, so a lone surrogate cannot be written, and an astral character counts as one `char`, where JavaScript's `.length` and the non-`u` regex count two code units. The model matches the source on strings in the Basic Multilingual Plane.
- `null` and `undefined` inputs: the methods take `string`, so `!input` is the empty string and nothing else.
- The `ICustomValidator` interface the class implements: its declaration is not part of this model, and an interface has no behaviour.
- The settings page (src/pages/app/settings.tsx) and the page head component (src/components/custom-head.tsx): they contain UI state, network calls to the API client and layout, and no validation logic.
- A general regular-expression engine: only the two fixed patterns the validators use are modelled.
