/** Entity names: case folding (section 2.2 of RFC 2812) and the nickname rules. */
module Names {
  import opened Text

  datatype NameError = NoError | NameTooLong | NickBeginsWithDigit | NameHasBadChars
                     | ServerNameHasDotDot | ServerNameHasNoDot

  /** `irctolower`: `[ ] \ ^` are the upper case of `{ } | ~`. */
  function FoldChar(c: char): char {
    match c
    case '[' => '{'
    case ']' => '}'
    case '\\' => '|'
    case '^' => '~'
    case _ => LowerChar(c)
  }

  /** `Name::IRCtoLower`. */
  function Fold(name: string): (r: string)
    ensures |r| == |name| && forall i | 0 <= i < |name| :: r[i] == FoldChar(name[i])
  {
    seq(|name|, i requires 0 <= i < |name| => FoldChar(name[i]))
  }

  /** Folding is idempotent, so folded names are their own keys. */
  lemma FoldIsIdempotent(name: string)
    ensures Fold(Fold(name)) == Fold(name)
  {
    forall i | 0 <= i < |name| ensures FoldChar(FoldChar(name[i])) == FoldChar(name[i]) {
    }
  }

  predicate IsSpecialChar(c: char) {
    0x5B <= c as int <= 0x60 || 0x7B <= c as int <= 0x7D
  }

  predicate IsNickChar(c: char) {
    (c as int / 0x80) % 2 == 1 || IsAlnum(c) || IsSpecialChar(c) || c == '-'
  }

  /** `Client::Name::checkValidity`; the empty name passes, as it does there. */
  function NickValidity(nick: string, maxLength: nat): NameError {
    if |nick| > maxLength then NameTooLong
    else if nick != "" && (IsDigit(nick[0]) || nick[0] == '-') then NickBeginsWithDigit
    else if exists i | 0 <= i < |nick| :: !IsNickChar(nick[i]) then NameHasBadChars
    else NoError
  }
}
