/** The ASCII letters and digits, and texts that are equal up to the case of letters. */
module LetterCase {
  /** One letter in either case; any other character only itself. */
  predicate SameLetter(a: char, b: char) {
    || a == b
    || ('a' <= a <= 'z' && b as int == a as int - 32)
    || ('A' <= a <= 'Z' && b as int == a as int + 32)
  }

  ghost predicate SameButCase(s: string, t: string) {
    |s| == |t| && forall i | 0 <= i < |s| :: SameLetter(s[i], t[i])
  }

  ghost predicate InCapitals(s: string) { forall i | 0 <= i < |s| :: !('a' <= s[i] <= 'z') }

  ghost predicate InSmallLetters(s: string) { forall i | 0 <= i < |s| :: !('A' <= s[i] <= 'Z') }

  // ----- the letters and digits by name

  const CAPITALS := "ABCDEFGHIJKLMNOPQRSTUVWXYZ"
  const SMALL_LETTERS := "abcdefghijklmnopqrstuvwxyz"
  const DIGITS := "0123456789"

  lemma CapitalAt(v: nat)
    requires v < 26
    ensures CAPITALS[v] == ('A' as int + v) as char
  {
  }

  lemma SmallLetterAt(v: nat)
    requires v < 26
    ensures SMALL_LETTERS[v] == ('a' as int + v) as char
  {
  }

  lemma DigitAt(v: nat)
    requires v < 10
    ensures DIGITS[v] == ('0' as int + v) as char
  {
  }

  lemma CapitalsAre(c: char)
    ensures 'A' <= c <= 'Z' <==> c in CAPITALS
  {
    if 'A' <= c <= 'Z' {
      CapitalAt(c as int - 'A' as int);
    }
    if c in CAPITALS {
      var v: nat :| v < |CAPITALS| && CAPITALS[v] == c;
      CapitalAt(v);
    }
  }

  lemma SmallLettersAre(c: char)
    ensures 'a' <= c <= 'z' <==> c in SMALL_LETTERS
  {
    if 'a' <= c <= 'z' {
      SmallLetterAt(c as int - 'a' as int);
    }
    if c in SMALL_LETTERS {
      var v: nat :| v < |SMALL_LETTERS| && SMALL_LETTERS[v] == c;
      SmallLetterAt(v);
    }
  }

  lemma DigitsAre(c: char)
    ensures '0' <= c <= '9' <==> c in DIGITS
  {
    if '0' <= c <= '9' {
      DigitAt(c as int - '0' as int);
    }
    if c in DIGITS {
      var v: nat :| v < |DIGITS| && DIGITS[v] == c;
      DigitAt(v);
    }
  }
}
