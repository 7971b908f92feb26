# JamesSmartTextBox validators and re-validation rule in Dafny

This project models the logic core of JamesSmartTextBox, a WPF text box that
re-validates its text on every change.

- **`Validators`** (`validators.dfy`) models the `IValidator` family of
  `src/JamesSmartTextBox/Local/Validators/IValidator.cs`. It has one datatype
  variant per validator (Required, Email, Password, Url, Passport, CreditCard).
  - Each variant carries its `Message`.
  - Each variant's `Validate` is a function.
  - The two regular expressions are written as structural predicates. Both keep
    .NET's rule that `$` also matches just before a final `'\n'`.
  - A `Validate` method dispatches on the variant and runs the credit-card
    check as a loop.
- **`CreditCard`** (`luhn.dfy`) models `CreditCardValidator`.
  - The digit projection (`value.Where(char.IsDigit)`) and the recursive Luhn
    sum are pure functions.
  - The right-to-left loop with its `alternate` flag is the method `LuhnLoop`,
    proved equal to the function.
  - Lemmas cover the 13..19 digit window, that only the digits matter, that
    each digit contributes 0..9, and that the Luhn code detects every
    single-digit error.
- **`Text`** (`text.dfy`) holds the .NET string primitives the validators use:
  `char.IsWhiteSpace`, `string.IsNullOrWhiteSpace`, `string.Trim` and
  `Enumerable.Any`. It also holds a character count and an index search, used
  to state the e-mail shape.
- **`SmartTextBoxControl`** (`smart_text_box.dfy`) models the control
  `src/JamesSmartTextBox/UI/Units/SmartTextBox.cs`.
  - It is a class whose fields are the control's properties, with their
    registered defaults.
  - `OnTextChanged` recomputes `isValid` and `errorMessage` from the optional
    validator and the text. Its contract states the new state, the frame, and
    that running it again changes nothing.
- **`ValidatorExamples`** (`examples.dfy`) holds concrete accepted and rejected
  inputs. Among them is a 16-digit number that passes the Luhn check, and the
  same number with its last digit changed, which fails it.

Character classes: `IsWhiteSpace` is the exact .NET set. That is U+0009 to
U+000D, U+0085, and the Unicode space, line and paragraph separators; it is
also the set regex `\s` matches. `IsUpper`, `IsLower`, `IsDigit` (and regex
`\d`) are restricted to ASCII, see below.

## Model

| member | source | states |
|---|---|---|
| Validators.DefaultValidators | src/JamesSmartTextBox/Local/Validators/IValidator.cs:15-80 | the six validators with their default messages, each of them non-empty |
| Validators.RequiredAccepts | src/JamesSmartTextBox/Local/Validators/IValidator.cs:17-20 | Required accepts exactly when the value has at least one non-white-space character |
| Validators.MatchesEmailBody | src/JamesSmartTextBox/Local/Validators/IValidator.cs:32 | definition: the language of `[^@\s]+@[^@\s]+\.[^@\s]+` as a split into three non-empty runs of non-'@', non-white-space characters joined by '@' and '.'; characterised by EmailBodyCharacterised |
| Validators.MatchesEmailPattern | src/JamesSmartTextBox/Local/Validators/IValidator.cs:32 | definition: the anchored match `^…$`, the body either as the whole value or followed by one final '\n' |
| Validators.EmailAccepts | src/JamesSmartTextBox/Local/Validators/IValidator.cs:27-33 | definition of EmailValidator.Validate: the blank guard of lines 29-30, then the line-32 pattern with .NET's final-'\n' rule for `$`; characterised by EmailAcceptsCharacterised |
| Validators.EmailBodyCharacterised | src/JamesSmartTextBox/Local/Validators/IValidator.cs:32 | the regex body `[^@\s]+@[^@\s]+\.[^@\s]+` matches exactly the strings with one '@', not first, no white space, and a '.' strictly inside the part after the '@' |
| Validators.EmailAcceptsCharacterised | src/JamesSmartTextBox/Local/Validators/IValidator.cs:27-33 | Email accepts exactly when the value has that shape, or is such a string followed by one final '\n' (the `$` rule) |
| Validators.EmailAcceptedShape | src/JamesSmartTextBox/Local/Validators/IValidator.cs:29-32 | an accepted e-mail has exactly one '@', a non-empty part before it, white space at most as one final '\n', and a '.' after the '@' that is neither the first nor the last character of the suffix |
| Validators.PasswordAccepts | src/JamesSmartTextBox/Local/Validators/IValidator.cs:40-48 | Password accepts exactly when the length is at least 8 and the value has an upper-case letter, a lower-case letter and a digit |
| Validators.UrlAccepts | src/JamesSmartTextBox/Local/Validators/IValidator.cs:55-62 | definition of UrlValidator.Validate: the blank guard of lines 57-58, then the absolute-URI parse and the scheme test of lines 60-61; characterised by UrlAcceptsCharacterised |
| Validators.UrlAcceptsCharacterised | src/JamesSmartTextBox/Local/Validators/IValidator.cs:55-62 | Url accepts exactly when the value is not blank, the absolute-URI parse succeeds, and the scheme is "http" or "https" |
| Validators.MatchesPassportBody | src/JamesSmartTextBox/Local/Validators/IValidator.cs:74 | definition: the language of `[A-Za-z]{1,2}\d{6,9}`, one or two ASCII letters followed by six to nine digits |
| Validators.MatchesPassportPattern | src/JamesSmartTextBox/Local/Validators/IValidator.cs:74 | definition: the anchored match `^…$`, the body either as the whole string or followed by one final '\n' |
| Validators.PassportAccepts | src/JamesSmartTextBox/Local/Validators/IValidator.cs:69-75 | definition of PassportValidator.Validate: the blank guard of lines 71-72, then the line-74 pattern on the trimmed value; characterised by PassportAcceptsCharacterised |
| Validators.PassportAcceptsCharacterised | src/JamesSmartTextBox/Local/Validators/IValidator.cs:69-75 | Passport accepts exactly when the trimmed value is 1-2 ASCII letters then 6-9 digits; an accepted trimmed value is 7 to 11 characters long |
| Validators.BlankRejected | src/JamesSmartTextBox/Local/Validators/IValidator.cs:17-85 | every validator rejects an empty or white-space-only value: Required by its own test (line 19), Email, Url, Passport and CreditCard by their guards (lines 29-30, 57-58, 71-72, 84-85), Password by its length guard (line 42) when shorter than 8 and by its upper/lower/digit tests (lines 45-47) otherwise |
| Validators.Accepts | src/JamesSmartTextBox/Local/Validators/IValidator.cs:7-11 | definition of IValidator.Validate: dispatches on the variant to the six acceptance predicates |
| Validators.Validate | src/JamesSmartTextBox/Local/Validators/IValidator.cs:7-11 | IValidator.Validate: the method's verdict is the variant's acceptance predicate; the credit-card case runs the Luhn loop |
| Text.IsWhiteSpace | src/JamesSmartTextBox/Local/Validators/IValidator.cs:32 | definition: `char.IsWhiteSpace` and the regex class `\s` (line 32, and line 74 through Trim), the exact .NET set: U+0009 to U+000D, U+0085, and the Unicode space, line and paragraph separators |
| Text.IsNullOrWhiteSpace | src/JamesSmartTextBox/Local/Validators/IValidator.cs:19 | definition: `string.IsNullOrWhiteSpace`, the guard of lines 19, 29, 57, 71 and 84: every character is white space; a null string is modelled as the empty string |
| Text.IsUpper | src/JamesSmartTextBox/Local/Validators/IValidator.cs:45 | definition: `char.IsUpper`, restricted to 'A'..'Z' (see "## Left out") |
| Text.IsLower | src/JamesSmartTextBox/Local/Validators/IValidator.cs:46 | definition: `char.IsLower`, restricted to 'a'..'z' (see "## Left out") |
| Text.IsDigit | src/JamesSmartTextBox/Local/Validators/IValidator.cs:47 | definition: `char.IsDigit` (lines 47 and 87) and the regex class `\d` (line 74), restricted to '0'..'9' (see "## Left out") |
| Text.IsAsciiLetter | src/JamesSmartTextBox/Local/Validators/IValidator.cs:74 | definition: the regex class `[A-Za-z]`, exactly the ASCII letters |
| Text.Any | src/JamesSmartTextBox/Local/Validators/IValidator.cs:45-47 | `value.Any(p)` holds exactly when some character satisfies p |
| Text.Trim | src/JamesSmartTextBox/Local/Validators/IValidator.cs:74 | `value.Trim()` is an infix of the value, white space on both sides of it, and it neither starts nor ends with white space |
| Text.TrimBlank | src/JamesSmartTextBox/Local/Validators/IValidator.cs:71-74 | a value is blank exactly when it trims to the empty string |
| Text.TrimUnique | src/JamesSmartTextBox/Local/Validators/IValidator.cs:74 | any infix with white-space margins whose ends are not white space is the trim, so Trim's contract determines `value.Trim()` |
| CreditCard.Digits | src/JamesSmartTextBox/Local/Validators/IValidator.cs:87 | the digit projection is no longer than the value and consists of digits only |
| CreditCard.DigitsOfDigits | src/JamesSmartTextBox/Local/Validators/IValidator.cs:87 | projecting a digit string returns it unchanged |
| CreditCard.NoDigits | src/JamesSmartTextBox/Local/Validators/IValidator.cs:87 | a value without digit characters projects to the empty string |
| CreditCard.DigitsAppend | src/JamesSmartTextBox/Local/Validators/IValidator.cs:87 | the projection of a concatenation is the concatenation of the projections; with NoDigits and DigitsOfDigits this fixes `Where(char.IsDigit)` |
| CreditCard.DigitProjection | src/JamesSmartTextBox/Local/Validators/IValidator.cs:87 | the verdict on a value equals the verdict on its digit projection, so spaces and dashes are irrelevant |
| CreditCard.BlankGuardRedundant | src/JamesSmartTextBox/Local/Validators/IValidator.cs:84-90 | acceptance is exactly "13 to 19 digits and a Luhn sum divisible by 10"; the white-space guard changes nothing |
| CreditCard.AcceptedLength | src/JamesSmartTextBox/Local/Validators/IValidator.cs:89-90 | an accepted value has between 13 and 19 digits, and at least one digit |
| CreditCard.Contribution | src/JamesSmartTextBox/Local/Validators/IValidator.cs:97-104 | an ASCII digit contributes a value in 0..9, and an undoubled one contributes its own value |
| CreditCard.ContributionInjective | src/JamesSmartTextBox/Local/Validators/IValidator.cs:97-104 | at a fixed parity, two different digits contribute different values |
| CreditCard.LuhnSum | src/JamesSmartTextBox/Local/Validators/IValidator.cs:92-108 | the Luhn sum of a digit string lies between 0 and 9 per digit |
| CreditCard.LuhnFrom | src/JamesSmartTextBox/Local/Validators/IValidator.cs:92-108 | the sum the loop accumulates over a digit string whose last digit gets the flag `alternate`; between 0 and 9 per digit |
| CreditCard.LuhnSumByPosition | src/JamesSmartTextBox/Local/Validators/IValidator.cs:92-108 | the right-to-left sum with a flag equals the sum that doubles the digits at odd positions from the right |
| CreditCard.LuhnLoop | src/JamesSmartTextBox/Local/Validators/IValidator.cs:92-108 | the down-counting loop with the `alternate` flag returns the recursive Luhn sum |
| CreditCard.LuhnDetectsSingleDigit | src/JamesSmartTextBox/Local/Validators/IValidator.cs:95-110 | on a digit string with a valid checksum, changing any one digit makes the checksum invalid |
| CreditCard.SingleDigitErrorDetected | src/JamesSmartTextBox/Local/Validators/IValidator.cs:87-110 | changing any single ASCII digit of an accepted value to another digit makes it rejected |
| CreditCard.CreditCardAccepts | src/JamesSmartTextBox/Local/Validators/IValidator.cs:82-111 | definition of CreditCardValidator.Validate: blank guard, 13..19 window on the digit projection, Luhn sum divisible by 10; characterised by BlankGuardRedundant and DigitProjection |
| CreditCard.CreditCardValidate | src/JamesSmartTextBox/Local/Validators/IValidator.cs:82-111 | CreditCardValidator.Validate: its verdict is blank guard, 13..19 digit window, then Luhn sum mod 10 == 0 |
| SmartTextBoxControl.UniformRadius | src/JamesSmartTextBox/UI/Units/SmartTextBox.cs:28 | definition: WPF's uniform `new CornerRadius(r)`, the same radius on all four corners; the constructor uses it with r = 4 |
| SmartTextBoxControl.OutcomeOf | src/JamesSmartTextBox/UI/Units/SmartTextBox.cs:101-109 | definition: (true, "") with no validator; otherwise the validator's verdict on the text, with "" when valid and the validator's message when not |
| SmartTextBoxControl.OutcomeMessage | src/JamesSmartTextBox/UI/Units/SmartTextBox.cs:101-109 | the error message is empty when valid and the validator's message otherwise; empty exactly when valid if that message is non-empty (used by OnTextChanged) |
| SmartTextBoxControl.SmartTextBox.constructor | src/JamesSmartTextBox/UI/Units/SmartTextBox.cs:9-49 | a fresh control has no validator, IsValid true, empty ErrorMessage, Header and Placeholder, corner radius 4 |
| SmartTextBoxControl.SmartTextBox.OnTextChanged | src/JamesSmartTextBox/UI/Units/SmartTextBox.cs:99-110 | recomputes IsValid and ErrorMessage (true and "" without a validator); Text, Validator, Header, Placeholder and CornerRadius are unchanged; with a non-empty message ErrorMessage is empty exactly when IsValid; a second run changes nothing |
| SmartTextBoxControl.SmartTextBox.SetText | src/JamesSmartTextBox/UI/Units/SmartTextBox.cs:58-61 | assigning a different text stores it and, through the TextChanged subscription, leaves the outcome of the new text; assigning the current text raises no TextChanged and keeps the old outcome |
| SmartTextBoxControl.SmartTextBox.SetValidator | src/JamesSmartTextBox/UI/Units/SmartTextBox.cs:81-85 | assigning Validator changes only the validator; IsValid and ErrorMessage wait for the next text change |
| ValidatorExamples.EmailAcceptsTrailingNewline | src/JamesSmartTextBox/Local/Validators/IValidator.cs:32 | "a@b.c\n" is accepted, because `$` matches before a final newline |
| ValidatorExamples.CreditCardAcceptsKnownNumber | src/JamesSmartTextBox/Local/Validators/IValidator.cs:82-111 | the 16-digit sample number passes the Luhn check |
| ValidatorExamples.CreditCardRejectsPerturbed | src/JamesSmartTextBox/Local/Validators/IValidator.cs:95-110 | the sample number with its last digit changed from 6 to 7 is rejected |
| ValidatorExamples.CreditCardAcceptsSpaced | src/JamesSmartTextBox/Local/Validators/IValidator.cs:87-110 | "4532 0151 1283 0366" is accepted: the spaces are dropped by the digit projection |
| ValidatorExamples.PassportAcceptsSample | src/JamesSmartTextBox/Local/Validators/IValidator.cs:69-75 | "AB123456" (two letters, six digits) is accepted |
| ValidatorExamples.PassportAcceptsPadded | src/JamesSmartTextBox/Local/Validators/IValidator.cs:69-75 | " A123456 " is accepted, because the value is trimmed before matching |
| ValidatorExamples.PassportRejectsTooManyDigits | src/JamesSmartTextBox/Local/Validators/IValidator.cs:69-75 | "A1234567890" (one letter, ten digits) is rejected |

## Left out

- WPF plumbing is not modelled: `DependencyProperty.Register`, the default-style override in the static constructor, property-change notification and rendering (SmartTextBox.cs:9-97). It is UI framework code. Header, Placeholder and CornerRadius are plain fields that `OnTextChanged` carries unchanged. The `TextChanged += OnTextChanged` subscription (line 60) appears only as `SetText` calling `OnTextChanged`.
- `Uri.TryCreate` is a foreign RFC 3986 parser. It is a parameter of type `string -> Option<string>`, carried by the Url variant, that returns the scheme of an absolute URI, which .NET reports in lower case. Only the scheme comparison is modelled.
- Text.IsUpper, Text.IsLower, Text.IsDigit: restricted to ASCII ('A'..'Z', 'a'..'z', '0'..'9'), because the Unicode category tables behind `char.IsUpper`, `char.IsLower`, `char.IsDigit` and regex `\d` are not available. Consequences:
  - The model rejects passwords whose only upper-case letter, lower-case letter or digit is outside ASCII.
  - It rejects passport numbers with non-ASCII decimal digits, which the source's `\d{6,9}` accepts.
  - It ignores non-ASCII decimal digits in card numbers. The source keeps them, and for them `digits[i] - '0'` falls far outside 0..9 (U+0660 gives 1584).
- The .NET regex engine is replaced by structural predicates for the two patterns. The anchors, the character classes, the `{1,2}`/`{6,9}` counts and the final-newline rule of `$` are modelled. Backtracking is not.
- C# strings are UTF-16. The model works on Dafny characters, so `value.Length` counts scalar values, and a character outside the Basic Multilingual Plane counts once rather than twice.
- A C# `null` string is treated as the empty string. Every validator returns false for both.
- `Validator` is a closed datatype of the six built-in validators. `SmartTextBox.Validator` (SmartTextBox.cs:81-85) accepts any `IValidator`, including user code. So the contracts of `OnTextChanged`, `SetText` and `OutcomeOf` are proved only for these six.
- `Message` setters are not modelled: each validator's message is a constant chosen when it is built.
- The Luhn loop is a method of its own, `CreditCard.LuhnLoop`, called by `CreditCardValidate`, rather than being inlined. On the model's ASCII digits its sum is at most 9 × 19 = 171. Even with the source's Unicode digits, 19 terms of at most about 2 × 65535 each stay far below the 32-bit `int` limit. So the sum is modelled as an unbounded integer.
- Validators.Validate and CreditCard.CreditCardValidate are methods, so they are stated against the acceptance functions. The properties are proved about those functions.
