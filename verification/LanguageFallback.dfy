/** Which language answers: the one asked for, the default language in its place, or the glyph that
    says nothing was found; read off the plain map of texts, then over live objects. */
module LanguageFallback {
  import opened Text
  import opened Tokens
  import opened LanguageText
  import opened LanguageMeaning
  import opened LanguageIndex
  import opened Languages
  import opened LanguageFiles

  /** The answer given a language's and the default language's stored texts. */
  lemma AnswerByTexts(files: seq<File>, code: string, name: string, env: Env, params: Parameters)
    ensures var t, p := LoadAll(EMPTY_TABLE, files), PlainLoadAll(EMPTY_PLAIN, files);
            var found := FindCode(p.texts, p.defaultCode, code);
            && FindCode(t.languages, t.defaultCode, code) == found
            && (found.Some? ==> p.defaultCode.Some? && p.defaultCode.value in p.texts)
            && (found.None? ==> Answer(t, code, name, env, params) == "\U{FFFC}")
            && (found.Some? ==>
                  var own := Shown(TextFor(p.texts[found.value], ToUpper(name)), env, params);
                  var fallback := Shown(TextFor(p.texts[p.defaultCode.value], ToUpper(name)), env, params);
                  Answer(t, code, name, env, params)
                  == if own != "" then own else if fallback != "" then fallback else "\U{FFFC}")
  {
    var t, p := LoadAll(EMPTY_TABLE, files), PlainLoadAll(EMPTY_PLAIN, files);
    LoadAllRefines(EMPTY_TABLE, EMPTY_PLAIN, files);
    SameFindCode(t.languages, p.texts, t.defaultCode, code);
    LanguagesHaveDefault(EMPTY_PLAIN, files);
    var found := FindCode(p.texts, p.defaultCode, code);
    if found.Some? {
      assert SlotOf(t.dictionary, t.languages[found.value], ToUpper(name))
             == TextFor(p.texts[found.value], ToUpper(name));
      assert SlotOf(t.dictionary, t.languages[p.defaultCode.value], ToUpper(name))
             == TextFor(p.texts[p.defaultCode.value], ToUpper(name));
    }
  }

  /** As soon as a language is loaded there is a default one. */
  lemma {:induction false} LanguagesHaveDefault(p: Plain, files: seq<File>)
    requires p.defaultCode.Some? ==> p.defaultCode.value in p.texts
    requires p.texts != map[] ==> p.defaultCode.Some?
    ensures PlainLoadAll(p, files).texts != map[] ==> PlainLoadAll(p, files).defaultCode.Some?
    decreases |files|
  {
    if files != [] {
      LanguagesHaveDefault(PlainLoad(p, files[0]), files[1..]);
    }
  }

  /** A text that shows as something: its source has no literal NUL and a meaning that is not empty. */
  predicate Tells(source: string, env: Env, params: Parameters) {
    !LiteralNul(Units(source)) && Meaning(Units(source), env, params) != ""
  }

  lemma TellingTextShows(source: string, env: Env, params: Parameters)
    requires Tells(source, env, params)
    ensures Shown(Some(Compile(source)), env, params) == Meaning(Units(source), env, params)
  {
    MeaningIsPreserved(source, env, params);
  }

  /** A stored language that lacks the tag leaves the answer to the default language. */
  lemma DefaultAnswers(files: seq<File>, code: string, name: string, source: string, env: Env, params: Parameters)
    requires var p := PlainLoadAll(EMPTY_PLAIN, files);
             && ToLower(code) in p.texts && ToUpper(name) !in p.texts[ToLower(code)]
             && p.defaultCode.Some? && ToUpper(name) in p.texts[p.defaultCode.value]
             && p.texts[p.defaultCode.value][ToUpper(name)] == Compile(source)
    requires Tells(source, env, params)
    ensures Answer(LoadAll(EMPTY_TABLE, files), code, name, env, params) == Meaning(Units(source), env, params)
  {
    AnswerByTexts(files, code, name, env, params);
    TellingTextShows(source, env, params);
  }

  /** Its own text comes first. */
  lemma OwnTextAnswers(files: seq<File>, code: string, name: string, source: string, env: Env, params: Parameters)
    requires var p := PlainLoadAll(EMPTY_PLAIN, files);
             && ToLower(code) in p.texts && ToUpper(name) in p.texts[ToLower(code)]
             && p.texts[ToLower(code)][ToUpper(name)] == Compile(source)
    requires Tells(source, env, params)
    ensures Answer(LoadAll(EMPTY_TABLE, files), code, name, env, params) == Meaning(Units(source), env, params)
  {
    AnswerByTexts(files, code, name, env, params);
    TellingTextShows(source, env, params);
  }

  /** With no text in either language, or no language under the code, the object glyph answers. */
  lemma GlyphAnswers(files: seq<File>, code: string, name: string, env: Env, params: Parameters)
    requires var p := PlainLoadAll(EMPTY_PLAIN, files);
             if ToLower(code) in p.texts
             then ToUpper(name) !in p.texts[ToLower(code)]
                  && (p.defaultCode.Some? ==> ToUpper(name) !in p.texts[p.defaultCode.value])
             else ToLower(code) != "i-default"
    ensures Answer(LoadAll(EMPTY_TABLE, files), code, name, env, params) == "\U{FFFC}"
  {
    AnswerByTexts(files, code, name, env, params);
  }

  /** `i-default` asks for the default language, unless a language is stored under that code. */
  lemma DefaultCodeAnswers(files: seq<File>, code: string, name: string, env: Env, params: Parameters)
    requires ToLower(code) == "i-default"
    requires var p := PlainLoadAll(EMPTY_PLAIN, files);
             "i-default" !in p.texts && p.defaultCode.Some? && ToLower(p.defaultCode.value) == p.defaultCode.value
    ensures var t := LoadAll(EMPTY_TABLE, files);
            t.defaultCode.Some?
            && Answer(t, code, name, env, params) == Answer(t, t.defaultCode.value, name, env, params)
  {
    var p := PlainLoadAll(EMPTY_PLAIN, files);
    LoadAllRefines(EMPTY_TABLE, EMPTY_PLAIN, files);
    AnswerByTexts(files, code, name, env, params);
    AnswerByTexts(files, p.defaultCode.value, name, env, params);
  }

  /** Neither the case of the code nor that of the tag matters. */
  lemma CaseDoesNotMatter(files: seq<File>, a: string, b: string, m: string, n: string, env: Env, params: Parameters)
    requires ToLower(a) == ToLower(b) && ToUpper(m) == ToUpper(n)
    ensures Answer(LoadAll(EMPTY_TABLE, files), a, m, env, params)
         == Answer(LoadAll(EMPTY_TABLE, files), b, n, env, params)
  {
    AnswerByTexts(files, a, m, env, params);
    AnswerByTexts(files, b, n, env, params);
  }

  // ----- which language a file is, and which is the default

  /** A file's code is the first word of its language line, in lower case. */
  lemma CodeIsFirstWord(word: string, rest: string)
    requires ' ' !in ToLower(word)
    ensures CodeOf(word) == ToLower(word) && CodeOf(word + " " + rest) == ToLower(word)
  {
    TokenOfJoin(ToLower(word), ' ', ToLower(rest));
    assert ToLower(word + " " + rest) == ToLower(word) + [' '] + ToLower(rest);
  }

  /** A language no one has loaded yet is stored under its own code, and becomes the default exactly
      when it is the first or asks to be. */
  lemma NewLanguageIsStored(p: Plain, file: File)
    requires p.defaultCode.Some? ==> p.defaultCode.value in p.texts
    requires var code := LanguageOf("", file.entries);
             ToLower(code) == code && code !in p.texts && code != "i-default"
    ensures var code, r := LanguageOf("", file.entries), PlainLoad(p, file);
            && code in r.texts && r.texts[code] == TextsOf(map[], file.entries)
            && (forall other | other in p.texts :: other in r.texts && r.texts[other] == p.texts[other])
            && r.defaultCode == if p.defaultCode.None? || file.makeDefault then Some(code) else p.defaultCode
  {
    assert map[] + TextsOf(map[], file.entries) == TextsOf(map[], file.entries);
  }

  /** A language loaded again keeps the texts the new file lacks; everything else is the new file's. */
  lemma ReloadedLanguageIsMerged(p: Plain, file: File, tag: string)
    requires p.defaultCode.Some? ==> p.defaultCode.value in p.texts
    requires var code := LanguageOf("", file.entries); ToLower(code) == code && code in p.texts
    ensures var code, texts, r := LanguageOf("", file.entries), TextsOf(map[], file.entries), PlainLoad(p, file);
            && r.texts.Keys == p.texts.Keys
            && (forall other | other in p.texts && other != code :: r.texts[other] == p.texts[other])
            && (tag in r.texts[code] <==> tag in texts || tag in p.texts[code])
            && (tag in r.texts[code] ==>
                  r.texts[code][tag] == if tag in texts then texts[tag] else p.texts[code][tag])
            && r.defaultCode == if p.defaultCode.None? || file.makeDefault then Some(code) else p.defaultCode
  {
  }

  /** A file of language `i-default` adds to the default language, whatever its code; with nothing loaded
      it becomes the default language itself. */
  lemma DefaultFileAddsToDefault(p: Plain, file: File)
    requires p.defaultCode.Some? ==> p.defaultCode.value in p.texts
    requires LanguageOf("", file.entries) == "i-default" && "i-default" !in p.texts
    ensures var texts, r := TextsOf(map[], file.entries), PlainLoad(p, file);
            var home := if p.defaultCode.Some? then p.defaultCode.value else "i-default";
            && r.defaultCode == Some(home) && r.texts.Keys == p.texts.Keys + {home} && home in r.texts
            && (forall other | other in p.texts && other != home :: r.texts[other] == p.texts[other])
            && r.texts[home] == if p.defaultCode.Some? then p.texts[home] + texts else texts
  {
    assert ToLower("i-default") == "i-default";
    assert map[] + TextsOf(map[], file.entries) == TextsOf(map[], file.entries);
  }

  /** The last language line of a file names it; other lines leave the name alone. */
  lemma {:induction false} LastCodeNames(sofar: string, entries: seq<Entry>, last: Entry)
    ensures LanguageOf(sofar, entries + [last])
            == match last
               case LangCode(data) => CodeOf(data)
               case Tag(_, _) => LanguageOf(sofar, entries)
    decreases |entries|
  {
    if entries == [] {
      assert entries + [last] == [last] && [last][1..] == [];
    } else {
      assert (entries + [last])[0] == entries[0] && (entries + [last])[1..] == entries[1..] + [last];
      LastCodeNames(WithCode(sofar, entries[0]), entries[1..], last);
    }
  }

  // ----- lines that carry no text

  const BLANKS := " \t\n\U{000B}\U{000C}\r"

  predicate Blank(s: string) {
    forall i | 0 <= i < |s| :: s[i] in BLANKS
  }

  lemma BlankCharacters(c: char)
    ensures IsSpace(c) <==> c in BLANKS
  {
    assert BLANKS == [' ', '\t', '\n', '\U{000B}', '\U{000C}', '\r'];
  }

  lemma {:induction false} BlankIsTrimmed(s: string)
    requires Blank(s)
    ensures Trim(s) == ""
    decreases |s|
  {
    if s != "" {
      BlankCharacters(s[0]);
      BlankIsTrimmed(s[1..]);
    }
  }

  predicate SpacesAround(s: string, from: nat, to: nat) {
    from <= to <= |s| && forall i | 0 <= i < |s| :: i < from || to <= i ==> IsSpace(s[i])
  }

  lemma {:induction false} TrimIsSlice(s: string) returns (from: nat, to: nat)
    ensures SpacesAround(s, from, to) && Trim(s) == s[from..to]
    ensures from < to ==> !IsSpace(s[from]) && !IsSpace(s[to - 1])
    decreases |s|
  {
    from, to := 0, |s|;
    if s != "" && IsSpace(s[0]) {
      from, to := TrimIsSlice(s[1..]);
      assert s[1..][from..to] == s[from + 1..to + 1];
      assert forall i | 0 < i < |s| :: s[i] == s[1..][i - 1];
      from, to := from + 1, to + 1;
    } else if s != "" && IsSpace(s[|s| - 1]) {
      from, to := TrimIsSlice(s[..|s| - 1]);
      assert s[..|s| - 1][from..to] == s[from..to];
    } else {
      assert s[0..|s|] == s;
    }
  }

  /** Trimming drops the blanks at both ends and nothing else. */
  lemma TrimIsInner(s: string) returns (from: nat, to: nat)
    ensures from <= to <= |s| && Trim(s) == s[from..to]
    ensures forall i | 0 <= i < |s| :: i < from || to <= i ==> s[i] in BLANKS
    ensures from < to ==> s[from] !in BLANKS && s[to - 1] !in BLANKS
  {
    from, to := TrimIsSlice(s);
    forall i | 0 <= i < |s| ensures IsSpace(s[i]) <==> s[i] in BLANKS {
      BlankCharacters(s[i]);
    }
  }

  /** Blank lines, comments and control lines carry no text; the control line `.LANGCODE`, in any
      case, names the language. */
  lemma OtherLines(line: string, key: string, data: string)
    ensures Blank(line) ==> ReadLine(line) == None
    ensures Trim(line) != "" && Trim(line)[0] == '#' ==> ReadLine(line) == None
    ensures '=' !in key && Trim(key) != "" && Trim(key)[0] == '.' ==>
              ReadLine(key + "=" + data)
              == if ToUpper(Trim(key)) == ".LANGCODE" then Some(LangCode(Trim(data))) else None
  {
    if Blank(line) {
      BlankIsTrimmed(line);
    }
    if '=' !in key && Trim(key) != "" && Trim(key)[0] == '.' {
      TrimmedAssignment(key, data);
      var start := TrimStart(key);
      TokenOfJoin(start, '=', TrimEnd(data));
      TrimForgetsStart(key);
      TrimForgetsEnd(data);
      assert ToUpper(Trim(key))[0] == '.';
    }
  }

  // ----- live objects

  lemma {:induction false} LoadAllSnoc(t: Table, files: seq<File>, file: File)
    requires ValidTable(t)
    ensures LoadAll(t, files + [file]) == Load(LoadAll(t, files), file)
    decreases |files|
  {
    if files == [] {
      assert files + [file] == [file] && [file][1..] == [];
      LoadKeepsValid(t, file);
    } else {
      LoadKeepsValid(t, files[0]);
      assert (files + [file])[0] == files[0] && (files + [file])[1..] == files[1..] + [file];
      LoadAllSnoc(Load(t, files[0]), files[1..], file);
    }
  }

  /** Load one more file, then ask for a tag the language lacks: the default language's text answers. */
  method LoadAndFallBack(languages: Languages, ghost files: seq<File>, lines: seq<string>, makeDefault: bool,
                         code: string, name: string, ghost source: string, env: Env, params: Parameters)
    returns (text: string)
    requires languages.Valid() && languages.Model() == LoadAll(EMPTY_TABLE, files)
    requires var p := PlainLoadAll(EMPTY_PLAIN, files + [File(ReadLines(lines), makeDefault)]);
             && ToLower(code) in p.texts && ToUpper(name) !in p.texts[ToLower(code)]
             && p.defaultCode.Some? && ToUpper(name) in p.texts[p.defaultCode.value]
             && p.texts[p.defaultCode.value][ToUpper(name)] == Compile(source)
    requires Tells(source, env, params)
    modifies languages, languages.languageDataMap.Values, languages.tagMaps
    ensures text == Meaning(Units(source), env, params)
  {
    languages.LoadFile(lines, makeDefault);
    ghost var file := File(ReadLines(lines), makeDefault);
    LoadAllSnoc(EMPTY_TABLE, files, file);
    DefaultAnswers(files + [file], code, name, source, env, params);
    text := languages.Get(code, name, env, params);
  }

  /** Asked for what no loaded language has, the objects answer the glyph. */
  method AskInVain(languages: Languages, ghost files: seq<File>, code: string, name: string,
                   env: Env, params: Parameters) returns (text: string)
    requires languages.Valid() && languages.Model() == LoadAll(EMPTY_TABLE, files)
    requires var p := PlainLoadAll(EMPTY_PLAIN, files);
             if ToLower(code) in p.texts
             then ToUpper(name) !in p.texts[ToLower(code)]
                  && (p.defaultCode.Some? ==> ToUpper(name) !in p.texts[p.defaultCode.value])
             else ToLower(code) != "i-default"
    ensures text == "\U{FFFC}"
  {
    GlyphAnswers(files, code, name, env, params);
    text := languages.Get(code, name, env, params);
  }
}
