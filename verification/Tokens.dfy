/** The contract assumed for `AIS::Util::StringTokens`, a class outside the repository:
    `nextToken` returns the text up to the next separator and consumes exactly one separator,
    `rest` is the verbatim remainder, and there are more tokens iff the remainder is non-empty. */
module Tokens {

  function TokenLength(s: string, separator: char): (n: nat)
    ensures n <= |s| && separator !in s[..n]
    ensures n < |s| ==> s[n] == separator
  {
    if s == "" || s[0] == separator then 0
    else
      var n := 1 + TokenLength(s[1..], separator);
      assert s[..n] == [s[0]] + s[1..][..n - 1];
      n
  }

  function Token(s: string, separator: char): string {
    s[..TokenLength(s, separator)]
  }

  function AfterToken(s: string, separator: char): (r: string)
    ensures |r| <= |s| && (s != "" ==> |r| < |s|)
  {
    var n := TokenLength(s, separator);
    if n < |s| then s[n + 1..] else ""
  }

  /** The token ends at the first separator: nothing else satisfies this description. */
  lemma {:induction false} TokenLengthUnique(s: string, separator: char, n: nat)
    requires n <= |s| && forall i :: 0 <= i < n ==> s[i] != separator
    requires n < |s| ==> s[n] == separator
    ensures TokenLength(s, separator) == n
  {
    if s == "" {
    } else if s[0] == separator {
    } else {
      TokenLengthUnique(s[1..], separator, n - 1);
    }
  }

  lemma TokenOfJoin(word: string, separator: char, rest: string)
    requires separator !in word
    ensures Token(word, separator) == word && AfterToken(word, separator) == ""
    ensures Token(word + [separator] + rest, separator) == word
    ensures AfterToken(word + [separator] + rest, separator) == rest
  {
    var line := word + [separator] + rest;
    assert word[..|word|] == word && line[..|word|] == word && line[|word| + 1..] == rest;
    TokenLengthUnique(word, separator, |word|);
    TokenLengthUnique(line, separator, |word|);
  }

  class StringTokens {
    var remainder: string

    constructor (text: string)
      ensures remainder == text
    {
      remainder := text;
    }

    method NextToken(separator: char) returns (token: string)
      modifies this
      ensures token == Token(old(remainder), separator)
      ensures remainder == AfterToken(old(remainder), separator)
    {
      token := Token(remainder, separator);
      remainder := AfterToken(remainder, separator);
    }

    method HasMoreTokens() returns (more: bool)
      ensures more <==> remainder != ""
    {
      more := remainder != "";
    }

    method Rest() returns (text: string)
      ensures text == remainder
    {
      text := remainder;
    }
  }
}
