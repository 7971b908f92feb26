/**
 * The validator family of IValidator.cs: a fixed failure message plus a
 * Validate(string) -> bool judgement, in six variants.
 */
module Validators {
  import opened Wrappers
  import opened Text
  import CreditCard

  const RequiredMessage: string := "This field is required."
  const EmailMessage: string := "Please enter a valid email address."
  const PasswordMessage: string := "Password must be at least 8 characters with uppercase, lowercase, and a number."
  const UrlMessage: string := "Please enter a valid URL."
  const PassportMessage: string := "Please enter a valid passport number (1-2 letters followed by 6-9 digits)."
  const CreditCardMessage: string := "Please enter a valid credit card number."

  /** Uri.UriSchemeHttp and Uri.UriSchemeHttps. */
  const SchemeHttp: string := "http"
  const SchemeHttps: string := "https"

  /** Uri.TryCreate(value, UriKind.Absolute, out uri) followed by uri.Scheme:
      the scheme of the absolute URI, or None when the value does not parse.
      .NET reports the scheme in lower case. */
  type UriParser = string -> Option<string>

  /** An IValidator: each variant carries the Message its owner chose. The URL
      variant also carries the platform's absolute-URI parser. */
  datatype Validator =
    | Required(message: string)
    | Email(message: string)
    | Password(message: string)
    | Url(message: string, parseAbsoluteUri: UriParser)
    | Passport(message: string)
    | CreditCardNumber(message: string)

  /** The validators as constructed with their default messages. */
  function DefaultValidators(parseAbsoluteUri: UriParser): (vs: seq<Validator>)
    ensures |vs| == 6
    ensures forall i :: 0 <= i < |vs| ==> vs[i].message != []
  {
    [ Required(RequiredMessage), Email(EmailMessage), Password(PasswordMessage),
      Url(UrlMessage, parseAbsoluteUri), Passport(PassportMessage),
      CreditCardNumber(CreditCardMessage) ]
  }

  // ---------------------------------------------------------------- Required

  /** RequiredValidator.Validate: !string.IsNullOrWhiteSpace(value). */
  function RequiredAccepts(value: string): (r: bool)
    ensures r <==> exists i :: 0 <= i < |value| && !IsWhiteSpace(value[i])
  {
    !IsNullOrWhiteSpace(value)
  }

  // ---------------------------------------------------------------- Email

  /** The regex class [^@\s]. */
  predicate IsEmailChar(c: char) {
    c != '@' && !IsWhiteSpace(c)
  }

  predicate AllEmailChars(t: string) {
    forall k :: 0 <= k < |t| ==> IsEmailChar(t[k])
  }

  /** The whole string is [^@\s]+@[^@\s]+\.[^@\s]+ : '@' at i, '.' at j. */
  predicate MatchesEmailBody(s: string) {
    exists i, j :: 0 < i && i + 1 < j && j + 1 < |s|
                && s[i] == '@' && s[j] == '.'
                && AllEmailChars(s[..i]) && AllEmailChars(s[i + 1..j]) && AllEmailChars(s[j + 1..])
  }

  /** ^[^@\s]+@[^@\s]+\.[^@\s]+$ : .NET's $ also matches just before a final '\n'. */
  predicate MatchesEmailPattern(s: string) {
    || MatchesEmailBody(s)
    || (|s| > 0 && s[|s| - 1] == '\n' && MatchesEmailBody(s[..|s| - 1]))
  }

  /** EmailValidator.Validate (lines 27-33). */
  function EmailAccepts(value: string): bool {
    !IsNullOrWhiteSpace(value) && MatchesEmailPattern(value)
  }

  /** Some character after position 0 and before the last one is '.'. */
  predicate HasInnerDot(t: string) {
    exists j :: 0 < j < |t| - 1 && t[j] == '.'
  }

  /** The address shape without reference to the regex: exactly one '@', not
      first, no white space, and a '.' after the '@' that is neither the first
      nor the last character of the part after it. */
  predicate EmailShape(s: string) {
    && Count(s, '@') == 1
    && 0 < IndexOf(s, '@')
    && (forall k :: 0 <= k < |s| ==> !IsWhiteSpace(s[k]))
    && HasInnerDot(s[IndexOf(s, '@') + 1..])
  }

  /** Count(s, c) == 1 holds iff the c at i is the only one. */
  lemma CountOnly(s: string, i: nat, c: char)
    requires i < |s| && s[i] == c
    ensures Count(s, c) == 1 <==> forall k :: 0 <= k < |s| && k != i ==> s[k] != c
  {
    var pre, post := s[..i], s[i + 1..];
    assert s == pre + [c] + post;
    CountAppend(pre + [c], post, c);
    CountAppend(pre, [c], c);
    assert forall k :: 0 <= k < i ==> s[k] == pre[k];
    assert forall k :: i < k < |s| ==> s[k] == post[k - i - 1];
  }

  lemma EmailBodyIsShape(s: string)
    requires MatchesEmailBody(s)
    ensures EmailShape(s)
  {
    var i, j :| 0 < i && i + 1 < j && j + 1 < |s|
             && s[i] == '@' && s[j] == '.'
             && AllEmailChars(s[..i]) && AllEmailChars(s[i + 1..j]) && AllEmailChars(s[j + 1..]);
    EmailSplitShape(s, i, j);
  }

  /** The shape of a string with '@' at i and '.' at j between [^@\s]+ parts. */
  lemma EmailSplitShape(s: string, i: nat, j: nat)
    requires 0 < i && i + 1 < j && j + 1 < |s| && s[i] == '@' && s[j] == '.'
    requires AllEmailChars(s[..i]) && AllEmailChars(s[i + 1..j]) && AllEmailChars(s[j + 1..])
    ensures EmailShape(s)
  {
    forall k | 0 <= k < |s| && k != i && k != j
      ensures IsEmailChar(s[k])
    {
      if k < i {
        assert s[k] == s[..i][k];
      } else if k < j {
        assert s[k] == s[i + 1..j][k - i - 1];
      } else {
        assert s[k] == s[j + 1..][k - j - 1];
      }
    }
    CountOnly(s, i, '@');
    var first := IndexOf(s, '@');
    assert first == i;
    assert s[i + 1..][j - i - 1] == '.';
  }

  lemma EmailShapeIsBody(s: string)
    requires EmailShape(s)
    ensures MatchesEmailBody(s)
  {
    var i := IndexOf(s, '@');
    var t := s[i + 1..];
    var j' :| 0 < j' < |t| - 1 && t[j'] == '.';
    var j := i + 1 + j';
    CountOnly(s, i, '@');
    assert s[j] == '.';
    assert AllEmailChars(s[..i]);
    assert AllEmailChars(s[i + 1..j]);
    assert AllEmailChars(s[j + 1..]);
  }

  /** The regex body and the structural shape describe the same strings. */
  lemma EmailBodyCharacterised(s: string)
    ensures MatchesEmailBody(s) <==> EmailShape(s)
  {
    if MatchesEmailBody(s) {
      EmailBodyIsShape(s);
    }
    if EmailShape(s) {
      EmailShapeIsBody(s);
    }
  }

  /** Email acceptance, stated structurally: the value, or the value with one
      final '\n' removed, has the address shape. */
  lemma EmailAcceptsCharacterised(value: string)
    ensures EmailAccepts(value)
        <==> (|| EmailShape(value)
              || (|value| > 0 && value[|value| - 1] == '\n' && EmailShape(value[..|value| - 1])))
  {
    EmailBodyCharacterised(value);
    if |value| > 0 {
      EmailBodyCharacterised(value[..|value| - 1]);
      if EmailShape(value[..|value| - 1]) {
        assert !IsWhiteSpace(value[0]);
      }
    }
    if EmailShape(value) {
      assert !IsWhiteSpace(value[0]);
    }
  }

  /** An accepted address has one '@', a non-empty local part, white space at
      most as a single final '\n', and an inner '.' after the '@'. */
  lemma EmailAcceptedShape(value: string)
    requires EmailAccepts(value)
    ensures Count(value, '@') == 1 && 0 < IndexOf(value, '@')
    ensures forall k :: 0 <= k < |value| && IsWhiteSpace(value[k]) ==> k == |value| - 1 && value[k] == '\n'
    ensures HasInnerDot(value[IndexOf(value, '@') + 1..])
  {
    EmailAcceptsCharacterised(value);
    if !EmailShape(value) {
      var t := value[..|value| - 1];
      SplitLast(value);
      EmailShapeWithNewline(t);
    }
  }

  /** What of the address shape survives appending a final '\n'. */
  lemma EmailShapeWithNewline(t: string)
    requires EmailShape(t)
    ensures Count(t + ['\n'], '@') == 1
    ensures IndexOf(t + ['\n'], '@') == IndexOf(t, '@')
    ensures HasInnerDot((t + ['\n'])[IndexOf(t, '@') + 1..])
    ensures forall k :: 0 <= k < |t| + 1 && IsWhiteSpace((t + ['\n'])[k]) ==> k == |t|
  {
    var m := IndexOf(t, '@');
    AtWithNewline(t, m);
    InnerDotWithNewline(t, m + 1);
    WhiteSpaceOnlyNewline(t);
  }

  lemma AtWithNewline(t: string, m: nat)
    requires Count(t, '@') == 1 && m == IndexOf(t, '@')
    ensures Count(t + ['\n'], '@') == 1 && IndexOf(t + ['\n'], '@') == m
  {
    CountAppend(t, ['\n'], '@');
    if m == |t| {
      assert false;
    }
    IndexOfAppend(t, ['\n'], '@');
  }

  lemma InnerDotWithNewline(t: string, m: nat)
    requires m <= |t| && HasInnerDot(t[m..])
    ensures HasInnerDot((t + ['\n'])[m..])
  {
    var j :| 0 < j < |t[m..]| - 1 && t[m..][j] == '.';
    assert (t + ['\n'])[m..][j] == t[m + j];
  }

  lemma WhiteSpaceOnlyNewline(t: string)
    requires forall k :: 0 <= k < |t| ==> !IsWhiteSpace(t[k])
    ensures forall k :: 0 <= k < |t| + 1 && IsWhiteSpace((t + ['\n'])[k]) ==> k == |t|
  {
    forall k | 0 <= k < |t|
      ensures !IsWhiteSpace((t + ['\n'])[k])
    {
      assert (t + ['\n'])[k] == t[k];
    }
  }

  // ---------------------------------------------------------------- Password

  const MinPasswordLength: nat := 8

  /** PasswordValidator.Validate (lines 40-48). */
  function PasswordAccepts(value: string): (r: bool)
    ensures r <==> && |value| >= MinPasswordLength
                   && (exists i :: 0 <= i < |value| && IsUpper(value[i]))
                   && (exists i :: 0 <= i < |value| && IsLower(value[i]))
                   && (exists i :: 0 <= i < |value| && IsDigit(value[i]))
  {
    if |value| == 0 || |value| < MinPasswordLength then false
    else Any(value, IsUpper) && Any(value, IsLower) && Any(value, IsDigit)
  }

  // ---------------------------------------------------------------- URL

  /** UrlValidator.Validate (lines 55-62). */
  function UrlAccepts(parseAbsoluteUri: UriParser, value: string): bool {
    && !IsNullOrWhiteSpace(value)
    && match parseAbsoluteUri(value)
       case None => false
       case Some(scheme) => scheme == SchemeHttp || scheme == SchemeHttps
  }

  /** An accepted URL is a non-blank value that parses as an absolute URI
      whose scheme is http or https, and every such value is accepted. */
  lemma UrlAcceptsCharacterised(parseAbsoluteUri: UriParser, value: string)
    ensures UrlAccepts(parseAbsoluteUri, value)
        <==> (&& (exists i :: 0 <= i < |value| && !IsWhiteSpace(value[i]))
              && parseAbsoluteUri(value) in {Some("http"), Some("https")})
  {
  }

  // ---------------------------------------------------------------- Passport

  predicate AllAsciiLetters(t: string) {
    forall k :: 0 <= k < |t| ==> IsAsciiLetter(t[k])
  }

  /** The whole string is [A-Za-z]{1,2}\d{6,9}: k letters, then the digits. */
  predicate MatchesPassportBody(t: string) {
    exists k :: 1 <= k <= 2 && k <= |t| && 6 <= |t| - k <= 9
             && AllAsciiLetters(t[..k]) && AllDigits(t[k..])
  }

  /** ^[A-Za-z]{1,2}\d{6,9}$ with .NET's $ (which also matches before a final '\n'). */
  predicate MatchesPassportPattern(t: string) {
    || MatchesPassportBody(t)
    || (|t| > 0 && t[|t| - 1] == '\n' && MatchesPassportBody(t[..|t| - 1]))
  }

  /** PassportValidator.Validate (lines 69-75). */
  function PassportAccepts(value: string): bool {
    !IsNullOrWhiteSpace(value) && MatchesPassportPattern(Trim(value))
  }

  /** Acceptance is exactly "the trimmed value is 1-2 ASCII letters followed by
      6-9 digits" (neither the blank guard nor the '\n' case of $ matters,
      since Trim removes both), and such a value has 7 to 11 characters. */
  lemma PassportAcceptsCharacterised(value: string)
    ensures PassportAccepts(value) <==> MatchesPassportBody(Trim(value))
    ensures PassportAccepts(value) ==> 7 <= |Trim(value)| <= 11
  {
    var t := Trim(value);
    PassportNoFinalNewline(t);
    if MatchesPassportBody(t) {
      PassportBodyShape(t);
      TrimBlank(value);
    }
  }

  /** A trimmed value does not end in '\n', so $ can only match at the end. */
  lemma PassportNoFinalNewline(t: string)
    requires t == [] || !IsWhiteSpace(t[|t| - 1])
    ensures MatchesPassportPattern(t) == MatchesPassportBody(t)
  {
  }

  lemma PassportBodyShape(t: string)
    requires MatchesPassportBody(t)
    ensures 7 <= |t| <= 11 && !IsWhiteSpace(t[0])
  {
    var k :| 1 <= k <= 2 && k <= |t| && 6 <= |t| - k <= 9
           && AllAsciiLetters(t[..k]) && AllDigits(t[k..]);
    assert IsAsciiLetter(t[..k][0]);
  }

  // ---------------------------------------------------------------- dispatch

  /** IValidator.Validate, dispatched on the variant. */
  function Accepts(v: Validator, value: string): bool {
    match v
    case Required(_) => RequiredAccepts(value)
    case Email(_) => EmailAccepts(value)
    case Password(_) => PasswordAccepts(value)
    case Url(_, parse) => UrlAccepts(parse, value)
    case Passport(_) => PassportAccepts(value)
    case CreditCardNumber(_) => CreditCard.CreditCardAccepts(value)
  }

  /** Every validator rejects the empty and the all-white-space value. */
  lemma BlankRejected(v: Validator, value: string)
    requires IsNullOrWhiteSpace(value)
    ensures !Accepts(v, value)
  {
  }

  /** IValidator.Validate as the control calls it. */
  method Validate(v: Validator, value: string) returns (ok: bool)
    ensures ok == Accepts(v, value)
  {
    match v {
      case CreditCardNumber(_) =>
        ok := CreditCard.CreditCardValidate(value);
      case _ =>
        ok := Accepts(v, value);
    }
  }
}
