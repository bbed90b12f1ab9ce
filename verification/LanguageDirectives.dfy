/** What each directive and each escape of a language text stands for, letter by letter. */
module LanguageDirectives {
  import opened Text
  import opened Alphabet
  import opened LanguageText
  import opened LanguageMeaning

  /** A source whose every character stands for itself or starts a directive. */
  predicate PlainSource(source: string) {
    '\\' !in source && '\U{0000}' !in source
  }

  lemma JoinedIsPlain(a: string, b: string)
    requires PlainSource(a) && PlainSource(b)
    ensures PlainSource(a + b)
  {
  }

  // ----- parameters

  /** The directive for parameter i: `%p0` to `%p9`, then `%P`, `%q` and `%Q`. */
  function ParameterDirective(i: nat): string
    requires i < 40
  {
    "%" + ["pPqQ"[i / 10]] + ["0123456789"[i % 10]]
  }

  lemma DirectiveIsPlain(i: nat)
    requires i < 40
    ensures PlainSource(ParameterDirective(i)) && |ParameterDirective(i)| == 3
    ensures ParameterDirective(i)[0] == '%' && ParameterDirective(i)[1] == "pPqQ"[i / 10]
    ensures ParameterDirective(i)[2] == "0123456789"[i % 10]
  {
    var letter, digit := "pPqQ"[i / 10], "0123456789"[i % 10];
    assert letter in "pPqQ" && digit in "0123456789";
    assert ParameterDirective(i) == ['%', letter, digit];
  }

  lemma NumberOfDirective(i: nat)
    requires i < 40
    ensures IsParameterLetter("pPqQ"[i / 10]) && IsDigit("0123456789"[i % 10])
    ensures ParameterBase("pPqQ"[i / 10]) + DigitValue("0123456789"[i % 10]) == i
  {
    DigitsInOrder(i % 10);
    assert i == 10 * (i / 10) + i % 10;
  }

  /** Directive i is replaced by parameter i if there is one, else by the replacement glyph; the text
      after it is processed as if it stood alone. */
  lemma ParameterIsInserted(i: nat, rest: string, env: Env, params: Parameters)
    requires i < 40 && PlainSource(rest)
    ensures Processed(Compile(ParameterDirective(i) + rest), env, params)
            == (if params.Some? && i < |params.value| then params.value[i] else "\U{FFFD}")
               + Processed(Compile(rest), env, params)
  {
    var source := ParameterDirective(i) + rest;
    DirectiveIsPlain(i);
    NumberOfDirective(i);
    JoinedIsPlain(ParameterDirective(i), rest);
    PlainSourcesExpand(source, env, params);
    PlainSourcesExpand(rest, env, params);
    assert source[0] == '%' && source[1] == "pPqQ"[i / 10] && source[2] == "0123456789"[i % 10];
    assert source[3..] == rest && source[2] != '%' && source[1] != '%';
  }

  /** A parameter letter with no digit after it: the character is lost, the glyph stands for both. */
  lemma ParameterWithoutDigit(letter: char, c: char, rest: string, env: Env, params: Parameters)
    requires letter in "pPqQ" && c !in DIGITS && c != '%' && PlainSource([c]) && PlainSource(rest)
    ensures Processed(Compile(['%', letter, c] + rest), env, params)
            == "\U{FFFD}" + Processed(Compile(rest), env, params)
  {
    var source := ['%', letter, c] + rest;
    assert PlainSource(['%', letter, c]);
    JoinedIsPlain(['%', letter, c], rest);
    PlainSourcesExpand(source, env, params);
    PlainSourcesExpand(rest, env, params);
    Classes(c);
    assert source[0] == '%' && source[1] == letter && source[2] == c && source[3..] == rest;
  }

  // ----- names

  /** What the directives for administrator, server and network stand for. */
  function NameFor(letter: char, env: Env): Option<string> {
    if letter == 'a' then Some(env.adminName)
    else if letter == 'A' then Some(env.adminContact)
    else if letter == 'd' then Some(env.description)
    else if letter == 'L' then Some(env.location)
    else if letter == 'n' then Some(env.serverName)
    else if letter == 'N' then Some(if env.networkName.Some? then env.networkName.value else "\U{FFFC}")
    else None
  }

  /** Each of the six letters inserts its name, `N` of an unnamed network the object glyph; any other
      letter the replacement glyph; two percent signs are one. */
  lemma LetterIsReplaced(letter: char, rest: string, env: Env, params: Parameters)
    requires letter !in "pPqQ" && PlainSource([letter]) && PlainSource(rest)
    ensures Processed(Compile(['%', letter] + rest), env, params)
            == (if letter == '%' then "%" else NameFor(letter, env).GetOr("\U{FFFD}"))
               + Processed(Compile(rest), env, params)
  {
    var source := ['%', letter] + rest;
    assert "pPqQ"[0] == 'p' && "pPqQ"[1] == 'P' && "pPqQ"[2] == 'q' && "pPqQ"[3] == 'Q';
    assert PlainSource(['%', letter]);
    JoinedIsPlain(['%', letter], rest);
    PlainSourcesExpand(source, env, params);
    PlainSourcesExpand(rest, env, params);
    assert source[0] == '%' && source[1] == letter && source[2..] == rest;
  }

  /** A percent sign that ends the text vanishes. */
  lemma LastPercentVanishes(env: Env, params: Parameters)
    ensures Processed(Compile("%"), env, params) == ""
  {
    PlainSourcesExpand("%", env, params);
  }

  // ----- escapes

  const ESCAPES := "nst\\bcCfgoriu"
  const ESCAPED := "\U{0085} \t\\\U{0002}\U{0003}\U{0004}\U{0006}\U{0007}\U{000F}\U{0016}\U{001D}\U{001F}"

  lemma EscapeLetter(k: nat)
    requires k < 13
    ensures Substitution(ESCAPES[k]) == Some(ESCAPED[k])
  {
    assert |ESCAPES| == 13 && |ESCAPED| == 13;
  }

  /** A backslash and one of the letters is its character; before any other character that is no
      digit it takes the character with it. */
  lemma EscapesMean(k: nat, c: char, rest: string)
    requires k < 13 && c !in ESCAPES && c !in DIGITS
    ensures Rewrite(['\\', ESCAPES[k]] + rest) == [ESCAPED[k]] + Rewrite(rest)
    ensures Rewrite(['\\', c] + rest) == Rewrite(rest)
  {
    EscapeLetter(k);
    EscapeIsRead(ESCAPES[k], rest);
    assert forall j | 0 <= j < 13 :: ESCAPES[j] != c;
    assert ESCAPES[0] == 'n' && ESCAPES[1] == 's' && ESCAPES[2] == 't' && ESCAPES[3] == '\\' && ESCAPES[4] == 'b';
    assert ESCAPES[5] == 'c' && ESCAPES[6] == 'C' && ESCAPES[7] == 'f' && ESCAPES[8] == 'g' && ESCAPES[9] == 'o';
    assert ESCAPES[10] == 'r' && ESCAPES[11] == 'i' && ESCAPES[12] == 'u';
    Classes(c);
    EscapeIsRead(c, rest);
  }

  lemma EscapeIsRead(c: char, rest: string)
    requires !IsDigit(c)
    ensures Rewrite(['\\', c] + rest) == OneOrNone(Substitution(c)) + Rewrite(rest)
  {
    var source := ['\\', c] + rest;
    assert source[1..][0] == c && source[2..] == rest;
    assert Escaped(source[1..]) == (OneOrNone(Substitution(c)), 1);
  }

  /** Three octal digits are the character with that code, up to 255; 0 and anything above are NUL. */
  lemma OctalDigitsMean(a: nat, b: nat, c: nat, rest: string)
    requires a < 8 && b < 8 && c < 8
    ensures var code := 64 * a + 8 * b + c;
            Rewrite(['\\', DIGITS[a], DIGITS[b], DIGITS[c]] + rest)
            == [if 0 < code < 256 then code as char else '\U{0000}'] + Rewrite(rest)
  {
    DigitsInOrder(a);
    DigitsInOrder(b);
    DigitsInOrder(c);
    OctalIsRead(DIGITS[a], DIGITS[b], DIGITS[c], rest);
  }

  /** An 8 or a 9 ends the number. */
  lemma OctalNumberStops(a: nat, b: nat, c: nat, rest: string)
    requires a < 10 && b < 10 && c < 10 && (a >= 8 || b >= 8 || c >= 8)
    ensures var code := if a >= 8 then 0 else if b >= 8 then a else 8 * a + b;
            Rewrite(['\\', DIGITS[a], DIGITS[b], DIGITS[c]] + rest)
            == [if code > 0 then code as char else '\U{0000}'] + Rewrite(rest)
  {
    DigitsInOrder(a);
    DigitsInOrder(b);
    DigitsInOrder(c);
    OctalIsRead(DIGITS[a], DIGITS[b], DIGITS[c], rest);
  }

  lemma OctalIsRead(a: char, b: char, c: char, rest: string)
    requires IsDigit(a) && IsDigit(b) && IsDigit(c)
    ensures Rewrite(['\\', a, b, c] + rest) == [OctalChar(a, b, c)] + Rewrite(rest)
  {
    var source := ['\\', a, b, c] + rest;
    assert source[1..][0] == a && source[1..][1] == b && source[1..][2] == c && source[4..] == rest;
    assert Escaped(source[1..]) == ([OctalChar(a, b, c)], 3);
  }

  // ----- unsafe characters

  const UNSAFE := "\U{0001}\U{0008}\U{000A}\U{000B}\U{000C}\U{000D}\U{0011}\U{0012}\U{0013}\U{0014}"
    + "\U{007F}\U{0085}\U{008D}\U{FFFC}\U{FFFD}\U{FFFE}\U{FFFF}"
  const SHOWN := "\U{2401}\U{2408}\U{240A}\U{240B}\U{240C}\U{240D}\U{2411}\U{2412}\U{2413}\U{2414}"
    + "\U{2421}\U{FFFD}\U{FFFD}\U{FFFD}\U{FFFD}\U{FFFD}\U{FFFD}"

  /** Seventeen characters are shown as something else, all others as themselves. */
  lemma UnsafeCharactersAreShown(text: string, i: nat)
    requires i < |text|
    ensures |Sanitised(text)| == |text| && |UNSAFE| == |SHOWN| == 17
    ensures forall k | 0 <= k < 17 :: text[i] == UNSAFE[k] ==> Sanitised(text)[i] == SHOWN[k]
    ensures text[i] !in UNSAFE ==> Sanitised(text)[i] == text[i]
  {
    var c := text[i];
    UnsafeCodes();
    if SafeChar(c) != c {
      assert c == UNSAFE[0] || c == UNSAFE[1] || c == UNSAFE[2] || c == UNSAFE[3] || c == UNSAFE[4] || c == UNSAFE[5]
        || c == UNSAFE[6] || c == UNSAFE[7] || c == UNSAFE[8] || c == UNSAFE[9] || c == UNSAFE[10] || c == UNSAFE[11]
        || c == UNSAFE[12] || c == UNSAFE[13] || c == UNSAFE[15] || c == UNSAFE[16];
    }
  }

  lemma UnsafeCodes()
    ensures |UNSAFE| == |SHOWN| == 17
    ensures UNSAFE[0] == '\U{0001}' && UNSAFE[1] == '\U{0008}' && UNSAFE[2] == '\U{000A}' && UNSAFE[3] == '\U{000B}'
    ensures UNSAFE[4] == '\U{000C}' && UNSAFE[5] == '\U{000D}' && UNSAFE[6] == '\U{0011}' && UNSAFE[7] == '\U{0012}'
    ensures UNSAFE[8] == '\U{0013}' && UNSAFE[9] == '\U{0014}' && UNSAFE[10] == '\U{007F}' && UNSAFE[11] == '\U{0085}'
    ensures UNSAFE[12] == '\U{008D}' && UNSAFE[13] == '\U{FFFC}' && UNSAFE[14] == '\U{FFFD}' && UNSAFE[15] == '\U{FFFE}'
    ensures UNSAFE[16] == '\U{FFFF}'
  {
  }
}
