/** What a language source text means, read straight from the source, and exactly when the
    compiled text, which marks substitutions in band with NUL, is interpreted that way. */
module LanguageMeaning {
  import opened Text
  import opened LanguageText

  // ----- direct meaning

  /** A source unit: a lone percent sign, or one character after escapes are resolved. */
  datatype Unit = Mark | Chr(c: char)

  function Chars(text: string): (units: seq<Unit>)
    ensures |units| == |text| && forall i | 0 <= i < |text| :: units[i] == Chr(text[i])
  {
    seq(|text|, i requires 0 <= i < |text| => Chr(text[i]))
  }

  function Units(source: string): seq<Unit>
    decreases |source|
  {
    if source == "" then []
    else if source[0] == '%' then
      if |source| > 1 && source[1] == '%' then [Chr('%')] + Units(source[2..]) else [Mark] + Units(source[1..])
    else if source[0] == '\\' then
      var (text, used) := Escaped(source[1..]);
      Chars(text) + Units(source[1 + used..])
    else [Chr(source[0])] + Units(source[1..])
  }

  predicate IsParameterUnit(u: Unit) {
    u.Chr? && IsParameterLetter(u.c)
  }

  function UnitChar(u: Unit): Option<char> {
    if u.Chr? then Some(u.c) else None
  }

  function NamedUnit(u: Unit, env: Env): string {
    if u.Chr? then Named(u.c, env) else [CHARACTER_GLYPH]
  }

  /** Left-to-right expansion: a percent sign takes the next unit, a parameter letter one more. */
  function Meaning(units: seq<Unit>, env: Env, params: Parameters): string
    decreases |units|
  {
    if units == [] then ""
    else if units[0].Chr? then [SafeChar(units[0].c)] + Meaning(units[1..], env, params)
    else if |units| == 1 then ""
    else if IsParameterUnit(units[1]) then
      if |units| == 2 then ParameterValue(units[1].c, None, params)
      else ParameterValue(units[1].c, UnitChar(units[2]), params) + Meaning(units[3..], env, params)
    else NamedUnit(units[1], env) + Meaning(units[2..], env, params)
  }

  /** A NUL that is ordinary text, not swallowed by a preceding percent sign. */
  predicate LiteralNul(units: seq<Unit>)
    decreases |units|
  {
    if units == [] then false
    else if units[0].Chr? then units[0].c == MARKER || LiteralNul(units[1..])
    else if |units| == 1 then false
    else if IsParameterUnit(units[1]) then |units| > 2 && LiteralNul(units[3..])
    else LiteralNul(units[2..])
  }

  // ----- the in-band form

  function InBand(u: Unit): char {
    if u.Mark? then MARKER else SafeChar(u.c)
  }

  function Encoded(units: seq<Unit>): (text: string)
    ensures |text| == |units| && forall i | 0 <= i < |units| :: text[i] == InBand(units[i])
  {
    seq(|units|, i requires 0 <= i < |units| => InBand(units[i]))
  }

  lemma {:induction false} CompileEncodesUnits(source: string)
    ensures Compile(source) == Encoded(Units(source))
    decreases |source|
  {
    if source == "" {
    } else if source[0] == '%' {
      if |source| > 1 && source[1] == '%' {
        CompileEncodesUnits(source[2..]);
        CompileOne("%", source[2..], [Chr('%')]);
      } else {
        CompileEncodesUnits(source[1..]);
        CompileOne([MARKER], source[1..], [Mark]);
      }
    } else if source[0] == '\\' {
      var (text, used) := Escaped(source[1..]);
      CompileEncodesUnits(source[1 + used..]);
      CompileOne(text, source[1 + used..], Chars(text));
    } else {
      CompileEncodesUnits(source[1..]);
      CompileOne([source[0]], source[1..], [Chr(source[0])]);
    }
  }

  lemma CompileOne(text: string, rest: string, units: seq<Unit>)
    requires |text| == |units| && forall i | 0 <= i < |text| :: SafeChar(text[i]) == InBand(units[i])
    requires Compile(rest) == Encoded(Units(rest))
    ensures Sanitised(text + Rewrite(rest)) == Encoded(units + Units(rest))
  {
    assert Sanitised(text + Rewrite(rest)) == Sanitised(text) + Sanitised(Rewrite(rest));
    assert Encoded(units + Units(rest)) == Encoded(units) + Encoded(Units(rest));
  }

  lemma SafeCharKeepsDirectives(c: char, env: Env)
    ensures SafeChar(c) != NEW_LINE
    ensures SafeChar(c) == MARKER <==> c == MARKER
    ensures IsParameterLetter(SafeChar(c)) <==> IsParameterLetter(c)
    ensures IsParameterLetter(c) || IsDigit(c) || IsDigit(SafeChar(c)) ==> SafeChar(c) == c
    ensures Named(SafeChar(c), env) == Named(c, env)
  {
  }

  lemma DigitUnit(u: Unit, letter: char, env: Env, params: Parameters)
    ensures ParameterValue(letter, Some(InBand(u)), params) == ParameterValue(letter, UnitChar(u), params)
  {
    if u.Chr? {
      SafeCharKeepsDirectives(u.c, env);
    }
  }

  lemma EncodedTail(units: seq<Unit>, n: nat)
    requires n <= |units|
    ensures Encoded(units)[n..] == Encoded(units[n..])
  {
  }

  /** With no literal NUL the substitution loop computes the direct meaning. */
  lemma {:induction false} SubstitutionMeans(units: seq<Unit>, env: Env, params: Parameters)
    requires !LiteralNul(units)
    ensures Substituted(Encoded(units), env, params) == Meaning(units, env, params)
    decreases |units|
  {
    if units != [] {
      var text := Encoded(units);
      if units[0].Chr? {
        SafeCharKeepsDirectives(units[0].c, env);
        EncodedTail(units, 1);
        SubstitutionMeans(units[1..], env, params);
      } else if |units| > 1 {
        if units[1].Chr? {
          SafeCharKeepsDirectives(units[1].c, env);
        }
        assert text[1] == InBand(units[1]);
        if IsParameterUnit(units[1]) {
          if |units| > 2 {
            assert text[2] == InBand(units[2]);
            DigitUnit(units[2], units[1].c, env, params);
            EncodedTail(units, 3);
            SubstitutionMeans(units[3..], env, params);
          }
        } else {
          EncodedTail(units, 2);
          SubstitutionMeans(units[2..], env, params);
        }
      }
    }
  }

  /** Without a marker there is nothing to substitute: the loop copies, except newline markers. */
  lemma {:induction false} UnmarkedSubstitution(text: string, env: Env, params: Parameters)
    requires MARKER !in text
    ensures Substituted(text, env, params) == text <==> NEW_LINE !in text
    ensures |Substituted(text, env, params)| == |text|
    decreases |text|
  {
    if text != "" {
      var rest := text[1..];
      UnmarkedSubstitution(rest, env, params);
      assert text == [text[0]] + rest;
      var out := Substituted(text, env, params);
      assert out[1..] == Substituted(rest, env, params);
      assert text[0] == NEW_LINE ==> out[0] == CHARACTER_GLYPH;
    }
  }

  /** `process`'s early return agrees with its full loop exactly on texts with no newline marker. */
  lemma ShortcutIsSound(text: string, env: Env, params: Parameters)
    requires MARKER !in text
    ensures Processed(text, env, params) == Substituted(text, env, params) <==> NEW_LINE !in text
  {
    UnmarkedSubstitution(text, env, params);
  }

  lemma CompiledTextHasNoNewLine(source: string)
    ensures NEW_LINE !in Compile(source)
  {
    forall i | 0 <= i < |Compile(source)| ensures Compile(source)[i] != NEW_LINE {
      assert Compile(source)[i] == SafeChar(Rewrite(source)[i]);
    }
  }

  // ----- the other direction: a literal NUL never survives

  predicate NulFree(s: string) {
    MARKER !in s
  }

  predicate PlainEnv(env: Env, params: Parameters) {
    && NulFree(env.adminName) && NulFree(env.adminContact) && NulFree(env.description)
    && NulFree(env.location) && NulFree(env.serverName)
    && (env.networkName.Some? ==> NulFree(env.networkName.value))
    && (params.Some? ==> forall i | 0 <= i < |params.value| :: NulFree(params.value[i]))
  }

  lemma {:induction false} SubstitutedIsNulFree(text: string, env: Env, params: Parameters)
    requires PlainEnv(env, params)
    ensures NulFree(Substituted(text, env, params))
    decreases |text|
  {
    if text == "" {
    } else if text[0] == MARKER {
      if |text| > 1 {
        if IsParameterLetter(text[1]) {
          if |text| > 2 {
            SubstitutedIsNulFree(text[3..], env, params);
          }
        } else {
          SubstitutedIsNulFree(text[2..], env, params);
        }
      }
    } else {
      SubstitutedIsNulFree(text[1..], env, params);
    }
  }

  lemma {:induction false} LiteralNulIsMeant(units: seq<Unit>, env: Env, params: Parameters)
    requires LiteralNul(units)
    ensures !NulFree(Meaning(units, env, params))
    decreases |units|
  {
    var meaning := Meaning(units, env, params);
    if units[0].Chr? {
      if units[0].c == MARKER {
        assert meaning[0] == MARKER;
      } else {
        LiteralNulIsMeant(units[1..], env, params);
      }
    } else if IsParameterUnit(units[1]) {
      LiteralNulIsMeant(units[3..], env, params);
    } else {
      LiteralNulIsMeant(units[2..], env, params);
    }
  }

  /** Compile then interpret, exactly: for every source text and every environment free of NUL
      the pipeline computes the direct meaning iff no literal NUL occurs in the text. */
  lemma CompileThenInterpret(source: string, env: Env, params: Parameters)
    requires PlainEnv(env, params)
    ensures Processed(Compile(source), env, params) == Meaning(Units(source), env, params)
            <==> !LiteralNul(Units(source))
  {
    PipelineSubstitutes(source, env, params);
    if LiteralNul(Units(source)) {
      LiteralNulIsMeant(Units(source), env, params);
      SubstitutedIsNulFree(Compile(source), env, params);
    } else {
      SubstitutionMeans(Units(source), env, params);
    }
  }

  /** On compiled text the early return never matters. */
  lemma PipelineSubstitutes(source: string, env: Env, params: Parameters)
    ensures Processed(Compile(source), env, params) == Substituted(Encoded(Units(source)), env, params)
  {
    CompileEncodesUnits(source);
    CompiledTextHasNoNewLine(source);
    if MARKER !in Compile(source) {
      ShortcutIsSound(Compile(source), env, params);
    }
  }

  /** The same with no condition on the environment. */
  lemma MeaningIsPreserved(source: string, env: Env, params: Parameters)
    requires !LiteralNul(Units(source))
    ensures Processed(Compile(source), env, params) == Meaning(Units(source), env, params)
  {
    PipelineSubstitutes(source, env, params);
    SubstitutionMeans(Units(source), env, params);
  }

  /** The escape `\400` is out of range and meant to be replaced; it becomes a substitution mark
      instead and swallows the next character. */
  lemma OutOfRangeEscapeSwallowsText(env: Env)
    ensures LiteralNul(Units("\\400x"))
    ensures Processed(Compile("\\400x"), env, None) == [CHARACTER_GLYPH]
  {
    var source := "\\400x";
    assert source[1..] == "400x";
    assert OctalValue('4', '0', '0') == 256;
    assert Escaped(source[1..]) == ([MARKER], 3);
    assert source[4..] == "x" && "x"[1..] == "";
    assert Units("x") == [Chr('x')] + Units("");
    assert Units(source) == Chars([MARKER]) + Units("x");
    assert Units(source) == [Chr(MARKER), Chr('x')];
    PipelineSubstitutes(source, env, None);
    var text := Encoded(Units(source));
    assert text == [MARKER, 'x'];
    assert text[2..] == "";
    assert Substituted(text, env, None) == Named('x', env) + Substituted("", env, None);
  }

  // ----- sources without backslashes, read character by character

  function Expand(source: string, env: Env, params: Parameters): string
    decreases |source|
  {
    if source == "" then ""
    else if source[0] != '%' then [SafeChar(source[0])] + Expand(source[1..], env, params)
    else if |source| == 1 then ""
    else if source[1] == '%' then "%" + Expand(source[2..], env, params)
    else if !IsParameterLetter(source[1]) then Named(source[1], env) + Expand(source[2..], env, params)
    else if |source| == 2 then [CHARACTER_GLYPH]
    else
      var doubled := |source| > 3 && source[2] == '%' && source[3] == '%';
      ParameterValue(source[1], Some(source[2]), params) + Expand(source[if doubled then 4 else 3..], env, params)
  }

  lemma UnitsLead(source: string)
    requires source != "" && source[0] != '\\'
    ensures Units(source) == if source[0] != '%' then [Chr(source[0])] + Units(source[1..])
                             else if |source| > 1 && source[1] == '%' then [Chr('%')] + Units(source[2..])
                             else [Mark] + Units(source[1..])
  {
  }

  lemma MeaningOfChar(c: char, rest: seq<Unit>, env: Env, params: Parameters)
    ensures Meaning([Chr(c)] + rest, env, params) == [SafeChar(c)] + Meaning(rest, env, params)
    ensures LiteralNul([Chr(c)] + rest) <==> c == MARKER || LiteralNul(rest)
  {
    assert ([Chr(c)] + rest)[1..] == rest;
  }

  lemma MeaningOfName(c: char, rest: seq<Unit>, env: Env, params: Parameters)
    requires !IsParameterLetter(c)
    ensures Meaning([Mark, Chr(c)] + rest, env, params) == Named(c, env) + Meaning(rest, env, params)
    ensures LiteralNul([Mark, Chr(c)] + rest) <==> LiteralNul(rest)
  {
    assert ([Mark, Chr(c)] + rest)[2..] == rest;
  }

  lemma MeaningOfParameter(c: char, u: Unit, rest: seq<Unit>, env: Env, params: Parameters)
    requires IsParameterLetter(c)
    ensures Meaning([Mark, Chr(c), u] + rest, env, params)
         == ParameterValue(c, UnitChar(u), params) + Meaning(rest, env, params)
    ensures LiteralNul([Mark, Chr(c), u] + rest) <==> LiteralNul(rest)
  {
    assert ([Mark, Chr(c), u] + rest)[3..] == rest;
  }

  lemma TailIsFree(source: string, n: nat)
    requires n <= |source| && '\\' !in source
    ensures '\\' !in source[n..]
    ensures NulFree(source) ==> NulFree(source[n..])
  {
  }

  /** A percent sign before anything but another one. */
  lemma DirectiveUnits(source: string)
    requires |source| > 1 && '\\' !in source && source[0] == '%' && source[1] != '%'
    ensures Units(source) == [Mark, Chr(source[1])] + Units(source[2..])
  {
    UnitsLead(source);
    UnitsLead(source[1..]);
    assert source[1..][1..] == source[2..];
  }

  /** The unit a parameter letter takes, and where reading goes on. */
  lemma ParameterUnits(source: string, after: nat)
    requires |source| > 2 && '\\' !in source && source[0] == '%' && source[1] != '%'
    requires after == if |source| > 3 && source[2] == '%' && source[3] == '%' then 4 else 3
    ensures exists u ::
              && Units(source) == [Mark, Chr(source[1]), u] + Units(source[after..])
              && (UnitChar(u) == Some(source[2]) || (UnitChar(u) == None && source[2] == '%'))
  {
    DirectiveUnits(source);
    UnitsLead(source[2..]);
    assert source[2..][1..] == source[3..] && (|source| > 3 ==> source[2..][2..] == source[4..]);
    var u := if source[2] == '%' && after == 3 then Mark else Chr(source[2]);
    assert Units(source[2..]) == [u] + Units(source[after..]);
    ConcatAssoc([Mark, Chr(source[1])], [u], Units(source[after..]));
    assert Units(source) == [Mark, Chr(source[1]), u] + Units(source[after..]);
  }

  lemma {:induction false} ExpandIsMeaning(source: string, env: Env, params: Parameters)
    requires '\\' !in source
    ensures Meaning(Units(source), env, params) == Expand(source, env, params)
    ensures NulFree(source) ==> !LiteralNul(Units(source))
    decreases |source|
  {
    if source == "" {
    } else if source[0] != '%' || (|source| > 1 && source[1] == '%') {
      var n := if source[0] == '%' then 2 else 1;
      UnitsLead(source);
      MeaningOfChar(source[0], Units(source[n..]), env, params);
      TailIsFree(source, n);
      ExpandIsMeaning(source[n..], env, params);
    } else if |source| == 1 {
      UnitsLead(source);
      assert Units(source) == [Mark];
    } else if !IsParameterLetter(source[1]) {
      DirectiveUnits(source);
      MeaningOfName(source[1], Units(source[2..]), env, params);
      TailIsFree(source, 2);
      ExpandIsMeaning(source[2..], env, params);
    } else if |source| == 2 {
      DirectiveUnits(source);
      assert Units(source) == [Mark, Chr(source[1])];
    } else {
      var after := if |source| > 3 && source[2] == '%' && source[3] == '%' then 4 else 3;
      ParameterUnits(source, after);
      var u :| && Units(source) == [Mark, Chr(source[1]), u] + Units(source[after..])
               && (UnitChar(u) == Some(source[2]) || (UnitChar(u) == None && source[2] == '%'));
      MeaningOfParameter(source[1], u, Units(source[after..]), env, params);
      TailIsFree(source, after);
      ExpandIsMeaning(source[after..], env, params);
    }
  }

  /** For every source free of backslashes and NUL, compiling and interpreting is the direct expansion. */
  lemma PlainSourcesExpand(source: string, env: Env, params: Parameters)
    requires '\\' !in source && NulFree(source)
    ensures Processed(Compile(source), env, params) == Expand(source, env, params)
  {
    ExpandIsMeaning(source, env, params);
    MeaningIsPreserved(source, env, params);
  }

  // ----- escaping

  /** Double every percent sign and every backslash. */
  function Escape(text: string): string {
    if text == "" then ""
    else (if text[0] == '%' || text[0] == '\\' then [text[0], text[0]] else [text[0]]) + Escape(text[1..])
  }

  lemma {:induction false} EscapeYieldsChars(text: string)
    ensures Units(Escape(text)) == Chars(text)
    decreases |text|
  {
    if text != "" {
      var rest := Escape(text[1..]);
      EscapeYieldsChars(text[1..]);
      assert Chars(text) == [Chr(text[0])] + Chars(text[1..]);
      if text[0] == '%' {
        assert Escape(text)[2..] == rest;
      } else if text[0] == '\\' {
        assert Escape(text)[1..] == "\\" + rest;
        assert !OctalEscape("\\" + rest);
        assert Escaped("\\" + rest) == ("\\", 1);
        assert Escape(text)[2..] == rest;
        assert Chars("\\") == [Chr('\\')];
      } else {
        assert Escape(text)[1..] == rest;
      }
    }
  }

  lemma NulFreeCons(c: char, rest: string)
    ensures NulFree([c] + rest) <==> c != MARKER && NulFree(rest)
  {
    assert c == ([c] + rest)[0];
    assert forall i | 0 <= i < |rest| :: rest[i] == ([c] + rest)[i + 1];
  }

  lemma {:induction false} CharsShowNul(text: string)
    ensures LiteralNul(Chars(text)) <==> !NulFree(text)
    decreases |text|
  {
    if text != "" {
      var units := Chars(text);
      assert units[0] == Chr(text[0]) && units[1..] == Chars(text[1..]);
      assert text == [text[0]] + text[1..];
      CharsShowNul(text[1..]);
      NulFreeCons(text[0], text[1..]);
    }
  }

  lemma {:induction false} CharsMeanThemselves(text: string, env: Env, params: Parameters)
    ensures Meaning(Chars(text), env, params) == Sanitised(text)
    decreases |text|
  {
    if text != "" {
      assert Chars(text)[1..] == Chars(text[1..]);
      CharsMeanThemselves(text[1..], env, params);
      assert text == [text[0]] + text[1..];
      assert Sanitised(text) == [SafeChar(text[0])] + Sanitised(text[1..]);
    }
  }

  /** Escaping makes the whole pipeline the identity exactly on texts of safe characters other than NUL. */
  lemma EscapedTextIsUnchanged(text: string, env: Env, params: Parameters)
    requires PlainEnv(env, params)
    ensures Processed(Compile(Escape(text)), env, params) == text
            <==> NulFree(text) && forall i | 0 <= i < |text| :: SafeChar(text[i]) == text[i]
  {
    EscapeYieldsChars(text);
    CharsShowNul(text);
    CharsMeanThemselves(text, env, params);
    PipelineSubstitutes(Escape(text), env, params);
    if NulFree(text) {
      SubstitutionMeans(Chars(text), env, params);
    } else {
      SubstitutedIsNulFree(Encoded(Chars(text)), env, params);
    }
  }
}
