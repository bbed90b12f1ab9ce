/** Language texts: what `Languages::loadFile` compiles a source text into, what
    `LanguageData::process` makes of the result, and what the text means. */
module LanguageText {
  import opened Text

  /** `parameterMarkerChar`, `newLineMarkerChar` and the two replacement glyphs. */
  const MARKER: char := '\U{0000}'
  const NEW_LINE: char := '\U{0085}'
  const OBJECT_GLYPH: char := '\U{FFFC}'
  const CHARACTER_GLYPH: char := '\U{FFFD}'

  // ----- compiling: escapes and percent signs

  /** The substitution map, with the attribute characters of its generated part. */
  function Substitution(c: char): Option<char> {
    match c
    case 'n' => Some(NEW_LINE)
    case 's' => Some(' ')
    case 't' => Some('\t')
    case '\\' => Some('\\')
    case 'b' => Some('\U{0002}')
    case 'c' => Some('\U{0003}')
    case 'C' => Some('\U{0004}')
    case 'f' => Some('\U{0006}')
    case 'g' => Some('\U{0007}')
    case 'o' => Some('\U{000F}')
    case 'r' => Some('\U{0016}')
    case 'i' => Some('\U{001D}')
    case 'u' => Some('\U{001F}')
    case _ => None
  }

  predicate IsOctal(c: char) {
    '0' <= c <= '7'
  }

  function DigitValue(c: char): nat
    requires IsDigit(c)
  {
    (c as int) - ('0' as int)
  }

  /** `strtol` in base 8 on three decimal digits: it stops at the first 8 or 9. */
  function OctalValue(a: char, b: char, c: char): (v: nat)
    requires IsDigit(a) && IsDigit(b) && IsDigit(c)
    ensures v < 512
  {
    if !IsOctal(a) then 0
    else if !IsOctal(b) then DigitValue(a)
    else if !IsOctal(c) then DigitValue(a) * 8 + DigitValue(b)
    else DigitValue(a) * 64 + DigitValue(b) * 8 + DigitValue(c)
  }

  /** The character a three-digit escape stands for; 0 and values past 255 give NUL. */
  function OctalChar(a: char, b: char, c: char): char
    requires IsDigit(a) && IsDigit(b) && IsDigit(c)
  {
    var value := OctalValue(a, b, c);
    if 0 < value < 256 then value as char else MARKER
  }

  predicate OctalEscape(s: string) {
    |s| > 2 && IsDigit(s[0]) && IsDigit(s[1]) && IsDigit(s[2])
  }

  function OneOrNone(c: Option<char>): string {
    if c.Some? then [c.value] else ""
  }

  /** What follows a backslash: text contributed, and how much of `s` it uses. */
  function Escaped(s: string): (string, nat) {
    if OctalEscape(s) then ([OctalChar(s[0], s[1], s[2])], 3)
    else if s == "" then ("", 0)
    else (OneOrNone(Substitution(s[0])), 1)
  }

  function Rewrite(data: string): string
    decreases |data|
  {
    if data == "" then ""
    else if data[0] == '%' then
      if |data| > 1 && data[1] == '%' then "%" + Rewrite(data[2..]) else [MARKER] + Rewrite(data[1..])
    else if data[0] == '\\' then
      var (text, used) := Escaped(data[1..]);
      text + Rewrite(data[1 + used..])
    else [data[0]] + Rewrite(data[1..])
  }

  /** Control characters become control pictures, other unsafe ones the replacement glyph; NUL stays. */
  function SafeChar(c: char): char {
    var code := c as int;
    if code == 0x01 || code == 0x08 || 0x0A <= code <= 0x0D || 0x11 <= code <= 0x14 then (code + 0x2400) as char
    else if code == 0x7F then '\U{2421}'
    else if code == 0x85 || code == 0x8D || 0xFFFC <= code <= 0xFFFF then CHARACTER_GLYPH
    else c
  }

  function Sanitised(s: string): (r: string)
    ensures |r| == |s| && forall i | 0 <= i < |s| :: r[i] == SafeChar(s[i])
  {
    seq(|s|, i requires 0 <= i < |s| => SafeChar(s[i]))
  }

  function Compile(data: string): string {
    Sanitised(Rewrite(data))
  }

  // ----- interpreting compiled text

  /** Everything substitutions can draw on besides the parameters. */
  datatype Env = Env(adminName: string, adminContact: string, description: string,
                     location: string, serverName: string, networkName: Option<string>)

  type Parameters = Option<seq<string>>

  predicate IsParameterLetter(c: char) {
    c == 'p' || c == 'P' || c == 'q' || c == 'Q'
  }

  function ParameterBase(c: char): nat {
    match c
    case 'P' => 10
    case 'q' => 20
    case 'Q' => 30
    case _ => 0
  }

  function ParameterValue(letter: char, digit: Option<char>, params: Parameters): string {
    if params.Some? && digit.Some? && IsDigit(digit.value)
       && ParameterBase(letter) + DigitValue(digit.value) < |params.value|
    then params.value[ParameterBase(letter) + DigitValue(digit.value)]
    else [CHARACTER_GLYPH]
  }

  function Named(letter: char, env: Env): string {
    match letter
    case 'a' => env.adminName
    case 'A' => env.adminContact
    case 'd' => env.description
    case 'L' => env.location
    case 'n' => env.serverName
    case 'N' => if env.networkName.Some? then env.networkName.value else [OBJECT_GLYPH]
    case _ => [CHARACTER_GLYPH]
  }

  /** The full substitution loop. */
  function Substituted(text: string, env: Env, params: Parameters): string
    decreases |text|
  {
    if text == "" then ""
    else if text[0] == MARKER then
      if |text| == 1 then ""
      else if IsParameterLetter(text[1]) then
        if |text| == 2 then ParameterValue(text[1], None, params)
        else ParameterValue(text[1], Some(text[2]), params) + Substituted(text[3..], env, params)
      else Named(text[1], env) + Substituted(text[2..], env, params)
    else [if text[0] == NEW_LINE then CHARACTER_GLYPH else text[0]] + Substituted(text[1..], env, params)
  }

  function Processed(text: string, env: Env, params: Parameters): string {
    if MARKER !in text then text else Substituted(text, env, params)
  }

  // ----- the imperative forms

  method RewriteData(source: string) returns (line: string)
    ensures line == Rewrite(source)
  {
    var data := source;
    var i := 0;
    line := "";
    while i < |data|
      invariant i <= |data| == |source|
      invariant data[i..] == source[i..]
      invariant line + Rewrite(data[i..]) == Rewrite(source)
    {
      ghost var rest := data[i..];
      ghost var before := line;
      if data[i] == '%' {
        if i + 1 < |data| && data[i + 1] == '%' {
          i := i + 1;
        } else {
          line := line + [MARKER];
          i := i + 1;
          ConcatAssoc(before, [MARKER], Rewrite(rest[1..]));
          continue;
        }
      }
      if data[i] == '\\' {
        i := i + 1;
        assert data[i..] == rest[1..];
        if |data| > i + 2 && IsDigit(data[i]) && IsDigit(data[i + 1]) && IsDigit(data[i + 2]) {
          var value := OctalChar(data[i], data[i + 1], data[i + 2]);
          i := i + 2;
          data := data[i := value];
        } else {
          if i < |data| && Substitution(data[i]).Some? {
            line := line + [Substitution(data[i]).value];
          }
          ConcatAssoc(before, Escaped(rest[1..]).0, Rewrite(rest[1 + Escaped(rest[1..]).1..]));
          i := Min(i + 1, |data|);
          assert before + "" == before;
          continue;
        }
      }
      line := line + [data[i]];
      i := i + 1;
      ConcatAssoc(before, [data[i - 1]], Rewrite(data[i..]));
    }
    assert line + "" == line;
  }

  method SanitiseData(source: string) returns (data: string)
    ensures data == Sanitised(source)
  {
    data := source;
    for i := 0 to |source|
      invariant |data| == |source|
      invariant forall k | 0 <= k < i :: data[k] == SafeChar(source[k])
      invariant forall k | i <= k < |source| :: data[k] == source[k]
    {
      data := data[i := SafeChar(data[i])];
    }
  }

  /** The text not yet visited when the loop index stands at `i`, possibly one past the end. */
  function Unvisited(text: string, i: nat): string {
    if i < |text| then text[i..] else ""
  }

  /** One step of the loop: a parameter directive, */
  lemma ParameterStep(done: string, text: string, i: nat, env: Env, params: Parameters)
    requires i + 1 < |text| && text[i] == MARKER && IsParameterLetter(text[i + 1])
    ensures var digit := if i + 2 < |text| then Some(text[i + 2]) else None;
            done + Substituted(Unvisited(text, i), env, params)
            == (done + ParameterValue(text[i + 1], digit, params)) + Substituted(Unvisited(text, i + 3), env, params)
  {
    var rest := text[i..];
    assert rest[0] == text[i] && rest[1] == text[i + 1];
    var digit := if i + 2 < |text| then Some(text[i + 2]) else None;
    if i + 2 < |text| {
      assert rest[2] == text[i + 2] && rest[3..] == Unvisited(text, i + 3);
    }
    ConcatAssoc(done, ParameterValue(text[i + 1], digit, params), Substituted(Unvisited(text, i + 3), env, params));
  }

  /** any other directive, */
  lemma NamedStep(done: string, text: string, i: nat, env: Env, params: Parameters)
    requires i + 1 < |text| && text[i] == MARKER && !IsParameterLetter(text[i + 1])
    ensures done + Substituted(Unvisited(text, i), env, params)
         == (done + Named(text[i + 1], env)) + Substituted(Unvisited(text, i + 2), env, params)
  {
    var rest := text[i..];
    assert rest[0] == text[i] && rest[1] == text[i + 1] && rest[2..] == Unvisited(text, i + 2);
    ConcatAssoc(done, Named(text[i + 1], env), Substituted(Unvisited(text, i + 2), env, params));
  }

  /** or a character that is no marker. */
  lemma CharacterStep(done: string, text: string, i: nat, env: Env, params: Parameters)
    requires i < |text| && text[i] != MARKER
    ensures done + Substituted(Unvisited(text, i), env, params)
         == (done + [if text[i] == NEW_LINE then CHARACTER_GLYPH else text[i]])
            + Substituted(Unvisited(text, i + 1), env, params)
  {
    var rest := text[i..];
    assert rest[0] == text[i] && rest[1..] == Unvisited(text, i + 1);
    ConcatAssoc(done, [if text[i] == NEW_LINE then CHARACTER_GLYPH else text[i]],
                Substituted(Unvisited(text, i + 1), env, params));
  }

  method Process(text: string, env: Env, params: Parameters) returns (output: string)
    ensures output == Processed(text, env, params)
  {
    if MARKER !in text {
      return text;
    }
    output := "";
    var i := 0;
    while i < |text|
      invariant output + Substituted(Unvisited(text, i), env, params) == Substituted(text, env, params)
    {
      if text[i] == MARKER {
        if i + 1 >= |text| {
          assert output + "" == output;
          return;
        }
        i := i + 1;
        if IsParameterLetter(text[i]) {
          ParameterStep(output, text, i - 1, env, params);
          i := i + 1;
          if params.Some? && i < |text| && IsDigit(text[i]) {
            var number := ParameterBase(text[i - 1]) + DigitValue(text[i]);
            if number + 1 <= |params.value| {
              output := output + params.value[number];
              i := i + 1;
              continue;
            }
          }
          output := output + [CHARACTER_GLYPH];
          i := i + 1;
          continue;
        }
        NamedStep(output, text, i - 1, env, params);
        output := output + Named(text[i], env);
        i := i + 1;
        continue;
      } else if text[i] == NEW_LINE {
        CharacterStep(output, text, i, env, params);
        output := output + [CHARACTER_GLYPH];
        i := i + 1;
        continue;
      }
      CharacterStep(output, text, i, env, params);
      output := output + [text[i]];
      i := i + 1;
    }
    assert output + "" == output;
  }
}
