/** The character classes and case mappings that everything else rests on, letter by letter. */
module Alphabet {
  import opened Text

  const UPPER := "ABCDEFGHIJKLMNOPQRSTUVWXYZ"
  const LOWER := "abcdefghijklmnopqrstuvwxyz"
  const DIGITS := "0123456789"

  lemma LettersInOrder(k: nat)
    requires k < 26
    ensures UPPER[k] as int == 65 + k && LOWER[k] as int == 97 + k
  {
    assert UPPER[..13] == "ABCDEFGHIJKLM" && LOWER[..13] == "abcdefghijklm";
  }

  lemma DigitsInOrder(k: nat)
    requires k < 10
    ensures DIGITS[k] as int == 48 + k
  {
  }

  lemma LetterAt(c: char)
    ensures c in UPPER <==> 65 <= c as int <= 90
    ensures c in LOWER <==> 97 <= c as int <= 122
    ensures c in DIGITS <==> 48 <= c as int <= 57
  {
    forall k | 0 <= k < 26 ensures UPPER[k] as int == 65 + k && LOWER[k] as int == 97 + k {
      LettersInOrder(k);
    }
    if 65 <= c as int <= 90 {
      assert UPPER[c as int - 65] == c;
    }
    if 97 <= c as int <= 122 {
      assert LOWER[c as int - 97] == c;
    }
    forall k | 0 <= k < 10 ensures DIGITS[k] as int == 48 + k {
      DigitsInOrder(k);
    }
    if 48 <= c as int <= 57 {
      assert DIGITS[c as int - 48] == c;
    }
  }

  /** Both case mappings exchange the letters at one place and leave everything else alone. */
  lemma CaseMapping(k: nat, c: char)
    requires k < 26
    ensures UpperChar(LOWER[k]) == UPPER[k] && LowerChar(UPPER[k]) == LOWER[k]
    ensures c !in LOWER ==> UpperChar(c) == c
    ensures c !in UPPER ==> LowerChar(c) == c
  {
    LettersInOrder(k);
    LetterAt(c);
  }

  lemma Classes(c: char)
    ensures IsDigit(c) <==> c in DIGITS
    ensures IsAlpha(c) <==> c in UPPER || c in LOWER
    ensures IsAlnum(c) <==> c in UPPER || c in LOWER || c in DIGITS
  {
    LetterAt(c);
  }
}
