/**
 * CreditCardValidator: digit extraction, the length window and the Luhn
 * mod-10 checksum (ISO/IEC 7812-1, Annex B).
 */
module CreditCard {
  import opened Text

  const MinDigits: nat := 13
  const MaxDigits: nat := 19

  /** value.Where(char.IsDigit): the digit characters of s, in order. */
  function Digits(s: string): (d: string)
    ensures |d| <= |s|
    ensures AllDigits(d)
  {
    if s == [] then []
    else (if IsDigit(s[0]) then [s[0]] else []) + Digits(s[1..])
  }

  /** A string of digits is its own digit projection. */
  lemma {:induction false} DigitsOfDigits(s: string)
    requires AllDigits(s)
    ensures Digits(s) == s
  {
    if s != [] {
      assert AllDigits(s[1..]);
      DigitsOfDigits(s[1..]);
      assert s == [s[0]] + s[1..];
    }
  }

  /** A string without any digit has an empty digit projection. */
  lemma {:induction false} NoDigits(s: string)
    requires forall i :: 0 <= i < |s| ==> !IsDigit(s[i])
    ensures Digits(s) == []
  {
    if s != [] {
      NoDigits(s[1..]);
    }
  }

  lemma {:induction false} DigitsAppend(a: string, b: string)
    ensures Digits(a + b) == Digits(a) + Digits(b)
  {
    if a == [] {
      assert a + b == b;
    } else {
      var head := if IsDigit(a[0]) then [a[0]] else [];
      assert (a + b)[0] == a[0];
      assert (a + b)[1..] == a[1..] + b;
      DigitsAppend(a[1..], b);
      assert Digits(a + b) == head + (Digits(a[1..]) + Digits(b));
      assert Digits(a) == head + Digits(a[1..]);
    }
  }

  /** The value one digit adds to the sum (lines 97-104): the code point
      minus '0', doubled when `doubled`, and less 9 when doubling passed 9. */
  function Contribution(c: char, doubled: bool): (n: int)
    ensures IsDigit(c) ==> 0 <= n <= 9
    ensures IsDigit(c) && !doubled ==> n == c as int - '0' as int
  {
    var n := c as int - '0' as int;
    if doubled then (if n * 2 > 9 then n * 2 - 9 else n * 2) else n
  }

  /** For a fixed position parity, distinct digits contribute distinct values. */
  lemma ContributionInjective(a: char, b: char, doubled: bool)
    requires IsDigit(a) && IsDigit(b) && a != b
    ensures Contribution(a, doubled) != Contribution(b, doubled)
  {
    if doubled {
      var x, y := a as int - '0' as int, b as int - '0' as int;
      assert x * 2 > 9 <==> x >= 5;
      assert y * 2 > 9 <==> y >= 5;
    }
  }

  /** The loop of lines 92-108 read as a recursion: the last digit is taken
      with the current `alternate` flag, the rest with the flag flipped. */
  function LuhnFrom(d: string, alternate: bool): (sum: int)
    ensures AllDigits(d) ==> 0 <= sum <= 9 * |d|
    decreases |d|
  {
    if d == [] then 0
    else
      var init := d[..|d| - 1];
      assert AllDigits(d) ==> AllDigits(init);
      Contribution(d[|d| - 1], alternate) + LuhnFrom(init, !alternate)
  }

  /** The Luhn sum: digits taken from the right, the first one undoubled. */
  function LuhnSum(d: string): (sum: int)
    ensures AllDigits(d) ==> 0 <= sum <= 9 * |d|
  {
    LuhnFrom(d, false)
  }

  /** The checksum as usually stated: the digit at 0-based position p, counted
      from the right, is doubled exactly when p is odd. */
  function LuhnByPosition(d: string): (sum: int)
  {
    if d == [] then 0
    else Contribution(d[0], (|d| - 1) % 2 == 1) + LuhnByPosition(d[1..])
  }

  /** Putting a digit in front of t adds its contribution with the flag the
      loop holds once it has consumed t. */
  lemma {:induction false} LuhnFromPrepend(c: char, t: string, alternate: bool)
    ensures LuhnFrom([c] + t, alternate)
         == LuhnFrom(t, alternate) + Contribution(c, alternate != (|t| % 2 == 1))
    decreases |t|
  {
    var ct := [c] + t;
    if t == [] {
      assert ct[..0] == [];
    } else {
      var init := t[..|t| - 1];
      assert ct[..|ct| - 1] == [c] + init;
      assert ct[|ct| - 1] == t[|t| - 1];
      LuhnFromPrepend(c, init, !alternate);
    }
  }

  /** The loop's right-to-left sum equals the positional definition. */
  lemma {:induction false} LuhnSumByPosition(d: string)
    ensures LuhnSum(d) == LuhnByPosition(d)
    decreases |d|
  {
    if d != [] {
      assert d == [d[0]] + d[1..];
      LuhnFromPrepend(d[0], d[1..], false);
      LuhnSumByPosition(d[1..]);
    }
  }

  /** Replacing the digit at i changes the positional sum by the difference
      of the two contributions at i's parity. */
  lemma {:induction false} LuhnByPositionUpdate(d: string, i: nat, x: char)
    requires i < |d|
    ensures LuhnByPosition(d[i := x])
         == LuhnByPosition(d) - Contribution(d[i], (|d| - 1 - i) % 2 == 1)
                              + Contribution(x, (|d| - 1 - i) % 2 == 1)
    decreases i
  {
    if i == 0 {
      assert d[i := x][1..] == d[1..];
    } else {
      assert d[i := x][1..] == d[1..][i - 1 := x];
      LuhnByPositionUpdate(d[1..], i - 1, x);
    }
  }

  /** CreditCardValidator.Validate (lines 82-111) as a function. */
  function CreditCardAccepts(value: string): bool {
    && !IsNullOrWhiteSpace(value)
    && MinDigits <= |Digits(value)| <= MaxDigits
    && LuhnSum(Digits(value)) % 10 == 0
  }

  /** The white-space guard of lines 84-85 is subsumed by the digit-count
      window: acceptance is exactly "13 to 19 digits and a Luhn sum that is a
      multiple of 10". */
  lemma BlankGuardRedundant(value: string)
    ensures CreditCardAccepts(value)
        <==> MinDigits <= |Digits(value)| <= MaxDigits && LuhnSum(Digits(value)) % 10 == 0
  {
    if IsNullOrWhiteSpace(value) {
      NoDigits(value);
    }
  }

  /** Only the digits matter: spaces, dashes and letters are ignored. */
  lemma DigitProjection(value: string)
    ensures CreditCardAccepts(Digits(value)) == CreditCardAccepts(value)
  {
    DigitsOfDigits(Digits(value));
    BlankGuardRedundant(value);
    BlankGuardRedundant(Digits(value));
  }

  /** An accepted number has 13 to 19 digits. */
  lemma AcceptedLength(value: string)
    requires CreditCardAccepts(value)
    ensures MinDigits <= |Digits(value)| <= MaxDigits
    ensures exists i :: 0 <= i < |value| && IsDigit(value[i])
  {
    if forall i :: 0 <= i < |value| ==> !IsDigit(value[i]) {
      NoDigits(value);
      assert false;
    }
  }

  lemma ModTenShift(sum: int, delta: int)
    requires sum % 10 == 0 && -10 < delta < 10 && delta != 0
    ensures (sum + delta) % 10 != 0
  {
    var q := sum / 10;
    assert sum == 10 * q;
    if delta > 0 {
      assert (sum + delta) % 10 == delta;
    } else {
      assert sum + delta == 10 * (q - 1) + (10 + delta);
      assert (sum + delta) % 10 == 10 + delta;
    }
  }

  /** Replacing one digit character of s replaces one element of Digits(s). */
  lemma DigitsUpdate(s: string, i: nat, x: char)
    requires i < |s| && IsDigit(s[i]) && IsDigit(x)
    ensures |Digits(s[..i])| < |Digits(s)|
    ensures Digits(s)[|Digits(s[..i])|] == s[i]
    ensures Digits(s[i := x]) == Digits(s)[|Digits(s[..i])| := x]
  {
    var pre, post := s[..i], s[i + 1..];
    assert s == (pre + [s[i]]) + post;
    assert s[i := x] == (pre + [x]) + post;
    DigitsAppend(pre + [s[i]], post);
    DigitsAppend(pre, [s[i]]);
    DigitsAppend(pre + [x], post);
    DigitsAppend(pre, [x]);
    DigitsOfDigits([s[i]]);
    DigitsOfDigits([x]);
  }

  /** On a digit string, a single changed digit breaks a valid checksum. */
  lemma LuhnDetectsSingleDigit(d: string, j: nat, x: char)
    requires j < |d| && AllDigits(d) && IsDigit(x) && x != d[j]
    requires LuhnSum(d) % 10 == 0
    ensures LuhnSum(d[j := x]) % 10 != 0
  {
    var parity := (|d| - 1 - j) % 2 == 1;
    LuhnSumByPosition(d);
    LuhnSumByPosition(d[j := x]);
    LuhnByPositionUpdate(d, j, x);
    ContributionInjective(d[j], x, parity);
    ModTenShift(LuhnSum(d), Contribution(x, parity) - Contribution(d[j], parity));
  }

  /** Changing any single digit of an accepted number to a different digit
      makes it rejected (the single-error detection of the Luhn code). */
  lemma SingleDigitErrorDetected(value: string, i: nat, x: char)
    requires i < |value| && IsDigit(value[i]) && IsDigit(x) && x != value[i]
    requires CreditCardAccepts(value)
    ensures !CreditCardAccepts(value[i := x])
  {
    DigitsUpdate(value, i, x);
    LuhnDetectsSingleDigit(Digits(value), |Digits(value[..i])|, x);
  }

  /** Lines 92-108: the down-counting loop that accumulates the Luhn sum. */
  method LuhnLoop(digits: string) returns (sum: int)
    ensures sum == LuhnSum(digits)
  {
    sum := 0;
    var alternate := false;
    var i: int := |digits| - 1;
    while i >= 0
      invariant -1 <= i < |digits|
      invariant sum == LuhnFrom(digits[i + 1..], false)
      invariant alternate == ((|digits| - 1 - i) % 2 == 1)
    {
      var n := digits[i] as int - '0' as int;
      if alternate {
        n := n * 2;
        if n > 9 {
          n := n - 9;
        }
      }
      assert n == Contribution(digits[i], alternate);
      assert digits[i..] == [digits[i]] + digits[i + 1..];
      LuhnFromPrepend(digits[i], digits[i + 1..], false);
      ParityStep(|digits| - 1 - i);
      sum := sum + n;
      alternate := !alternate;
      i := i - 1;
    }
    assert digits[0..] == digits;
  }

  lemma ParityStep(k: nat)
    ensures ((k + 1) % 2 == 1) == !(k % 2 == 1)
  {
  }

  /** CreditCardValidator.Validate (lines 82-111). */
  method CreditCardValidate(value: string) returns (ok: bool)
    ensures ok == CreditCardAccepts(value)
  {
    if IsNullOrWhiteSpace(value) {
      return false;
    }
    var digits := Digits(value);
    if |digits| < MinDigits || |digits| > MaxDigits {
      return false;
    }
    var sum := LuhnLoop(digits);
    ok := sum % 10 == 0;
  }
}
