/** Concrete judgements of the validators on sample inputs. */
module ValidatorExamples {
  import opened Text
  import opened Validators
  import CreditCard

  lemma RequiredSamples()
    ensures !RequiredAccepts("") && !RequiredAccepts("   ") && RequiredAccepts("a")
  {
    assert !IsWhiteSpace("a"[0]);
  }

  lemma EmailAcceptsSimple()
    ensures EmailAccepts("a@b.c")
  {
    var s := "a@b.c";
    assert s[..1] == "a" && s[2..3] == "b" && s[4..] == "c";
    assert AllEmailChars(s[..1]) && AllEmailChars(s[2..3]) && AllEmailChars(s[4..]);
    assert s[1] == '@' && s[3] == '.';
  }

  /** .NET's $ lets a single final line feed through. */
  lemma EmailAcceptsTrailingNewline()
    ensures EmailAccepts("a@b.c\n")
  {
    var s := "a@b.c\n";
    assert s[..|s| - 1] == "a@b.c";
    EmailAcceptsSimple();
    assert !IsWhiteSpace(s[0]);
  }

  lemma EmailRejectsNoDot()
    ensures !EmailAccepts("a@b")
  {
  }

  lemma EmailRejectsEmptyLocalPart()
    ensures !EmailAccepts("@b.c")
  {
    var s := "@b.c";
    assert forall i :: 0 < i < |s| ==> s[i] != '@';
    assert s[..|s| - 1] == "@b.";
  }

  lemma EmailRejectsSpace()
    ensures !EmailAccepts("a b@c.d")
  {
    var s := "a b@c.d";
    assert forall i :: 0 <= i < |s| && s[i] == '@' ==> i == 3;
    assert !AllEmailChars(s[..3]) by {
      assert s[..3][1] == ' ';
    }
    assert s[..|s| - 1][..3] == s[..3];
  }

  lemma PasswordAcceptsSample()
    ensures PasswordAccepts("Abcdefg1")
  {
    var s := "Abcdefg1";
    assert IsUpper(s[0]) && IsLower(s[1]) && IsDigit(s[7]);
  }

  lemma PasswordRejectsNoUpper()
    ensures !PasswordAccepts("abcdefg1")
  {
    var s := "abcdefg1";
    assert forall i :: 0 <= i < |s| ==> !IsUpper(s[i]);
  }

  lemma PasswordRejectsShort()
    ensures !PasswordAccepts("Abc12")
  {
  }

  const PassportSample: string := "AB123456"
  const PaddedPassport: string := " A123456 "
  const LongPassport: string := "A1234567890"

  lemma PassportAcceptsSample()
    ensures PassportAccepts(PassportSample)
  {
    var t := PassportSample;
    TrimUnique(t, [], t, []);
    assert [] + t + [] == t;
    assert AllAsciiLetters(t[..2]) && AllDigits(t[2..]);
    PassportAcceptsCharacterised(t);
  }

  /** The surrounding blanks are trimmed away before the pattern is applied. */
  lemma PassportAcceptsPadded()
    ensures PassportAccepts(PaddedPassport)
  {
    var s := PaddedPassport;
    var t := s[1..8];
    assert s == [' '] + t + [' '];
    TrimUnique(s, [' '], t, [' ']);
    assert AllAsciiLetters(t[..1]) && AllDigits(t[1..]);
    PassportAcceptsCharacterised(s);
  }

  /** One letter and ten digits: too many digits, and no second letter. */
  lemma PassportRejectsTooManyDigits()
    ensures !PassportAccepts(LongPassport)
  {
    var t := LongPassport;
    TrimUnique(t, [], t, []);
    assert [] + t + [] == t;
    assert !IsAsciiLetter(t[..2][1]);
    PassportAcceptsCharacterised(t);
  }

  lemma CreditCardRejectsShort()
    ensures !CreditCard.CreditCardAccepts("123")
  {
    CreditCard.DigitsOfDigits("123");
  }

  lemma PerturbedNumberDigits()
    ensures AllDigits(PerturbedNumber)
  {
  }

  /** A number that passes the Luhn check, and the same number with its last
      digit changed. */
  const KnownNumber: string := "4532015112830366"
  const PerturbedNumber: string := "4532015112830367"

  lemma KnownNumberHalfSum()
    ensures CreditCard.LuhnFrom(KnownNumber[..8], false) == 24
  {
    var d := KnownNumber;
    assert d[..0] == [];
    assert d[..1][..0] == d[..0];
    assert CreditCard.LuhnFrom(d[..1], true) == 8;
    assert d[..2][..1] == d[..1];
    assert CreditCard.LuhnFrom(d[..2], false) == 13;
    assert d[..3][..2] == d[..2];
    assert CreditCard.LuhnFrom(d[..3], true) == 19;
    assert d[..4][..3] == d[..3];
    assert CreditCard.LuhnFrom(d[..4], false) == 21;
    assert d[..5][..4] == d[..4];
    assert CreditCard.LuhnFrom(d[..5], true) == 21;
    assert d[..6][..5] == d[..5];
    assert CreditCard.LuhnFrom(d[..6], false) == 22;
    assert d[..7][..6] == d[..6];
    assert CreditCard.LuhnFrom(d[..7], true) == 23;
    assert d[..8][..7] == d[..7];
    assert CreditCard.LuhnFrom(d[..8], false) == 24;
  }

  /** The Luhn sum of 4532015112830366 is 50, computed one digit at a time
      from the left. */
  lemma KnownNumberSum()
    ensures CreditCard.LuhnFrom(KnownNumber[..15], true) == 44
    ensures CreditCard.LuhnSum(KnownNumber) == 50
  {
    var d := KnownNumber;
    KnownNumberHalfSum();
    assert d[..9][..8] == d[..8];
    assert CreditCard.LuhnFrom(d[..9], true) == 26;
    assert d[..10][..9] == d[..9];
    assert CreditCard.LuhnFrom(d[..10], false) == 28;
    assert d[..11][..10] == d[..10];
    assert CreditCard.LuhnFrom(d[..11], true) == 35;
    assert d[..12][..11] == d[..11];
    assert CreditCard.LuhnFrom(d[..12], false) == 38;
    assert d[..13][..12] == d[..12];
    assert CreditCard.LuhnFrom(d[..13], true) == 38;
    assert d[..14][..13] == d[..13];
    assert CreditCard.LuhnFrom(d[..14], false) == 41;
    assert d[..15][..14] == d[..14];
    assert CreditCard.LuhnFrom(d[..15], true) == 44;
    assert d[..16][..15] == d[..15];
    assert CreditCard.LuhnFrom(d[..16], false) == 50;
    assert d[..16] == d;
  }

  lemma KnownNumberDigits()
    ensures AllDigits(KnownNumber) && |KnownNumber| == 16
  {
  }

  lemma CreditCardAcceptsKnownNumber()
    ensures CreditCard.CreditCardAccepts(KnownNumber)
  {
    KnownNumberDigits();
    KnownNumberSum();
    AcceptedDigitString(KnownNumber);
  }

  lemma AcceptedDigitString(d: string)
    requires AllDigits(d) && 13 <= |d| <= 19 && CreditCard.LuhnSum(d) % 10 == 0
    ensures CreditCard.CreditCardAccepts(d)
  {
    CreditCard.DigitsOfDigits(d);
    CreditCard.BlankGuardRedundant(d);
  }

  lemma CreditCardRejectsPerturbed()
    ensures !CreditCard.CreditCardAccepts(PerturbedNumber)
  {
    var d := PerturbedNumber;
    PerturbedNumberDigits();
    KnownNumberSum();
    assert d[..15] == KnownNumber[..15];
    assert CreditCard.LuhnSum(d) == 51;
    RejectedDigitString(d);
  }

  /** The sample number written in groups of four. */
  const SpacedNumber: string := "4532 0151 1283 0366"

  /** Spaces between the groups do not change the verdict. */
  lemma CreditCardAcceptsSpaced()
    ensures CreditCard.CreditCardAccepts(SpacedNumber)
  {
    var g1, g2, g3, g4 := "4532", "0151", "1283", "0366";
    assert SpacedNumber == g1 + " " + g2 + " " + g3 + " " + g4;
    assert KnownNumber == g1 + g2 + g3 + g4;
    assert AllDigits(g1) && AllDigits(g2) && AllDigits(g3) && AllDigits(g4);
    SpacedGroups(g1, g2, g3, g4);
    CreditCardAcceptsKnownNumber();
    CreditCard.DigitProjection(SpacedNumber);
  }

  lemma SpacedGroups(g1: string, g2: string, g3: string, g4: string)
    requires AllDigits(g1) && AllDigits(g2) && AllDigits(g3) && AllDigits(g4)
    ensures CreditCard.Digits(g1 + " " + g2 + " " + g3 + " " + g4) == g1 + g2 + g3 + g4
  {
    CreditCard.DigitsOfDigits(g1);
    SpaceJoin(g1, g2);
    SpaceJoin(g1 + " " + g2, g3);
    SpaceJoin(g1 + " " + g2 + " " + g3, g4);
  }

  /** Joining a digit group with a space keeps only the digits. */
  lemma SpaceJoin(a: string, b: string)
    requires AllDigits(b)
    ensures CreditCard.Digits(a + " " + b) == CreditCard.Digits(a) + b
  {
    var sp := " ";
    CreditCard.NoDigits(sp);
    CreditCard.DigitsAppend(a, sp);
    assert CreditCard.Digits(a + sp) == CreditCard.Digits(a);
    CreditCard.DigitsAppend(a + sp, b);
    CreditCard.DigitsOfDigits(b);
  }

  lemma RejectedDigitString(d: string)
    requires AllDigits(d) && CreditCard.LuhnSum(d) % 10 != 0
    ensures !CreditCard.CreditCardAccepts(d)
  {
    CreditCard.DigitsOfDigits(d);
  }
}
