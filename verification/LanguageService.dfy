/** Loading, indexing and interpreting composed: a loaded text is answered with its meaning. */
module LanguageService {
  import opened Text
  import opened LanguageText
  import opened LanguageMeaning
  import opened LanguageIndex
  import opened Languages

  /** The last load of a language decides the texts it mentions. */
  lemma LastLoadDecides(p: Plain, file: File, name: string)
    requires p.defaultCode.Some? ==> p.defaultCode.value in p.texts
    requires ToUpper(name) in TextsOf(map[], file.entries)
    ensures PlainLookup(PlainLoad(p, file), LanguageOf("", file.entries), name)
            == Some(TextsOf(map[], file.entries)[ToUpper(name)])
  {
    LanguageIsLower("", file.entries);
  }

  lemma {:induction false} LanguageIsLower(sofar: string, entries: seq<Entry>)
    requires ToLower(sofar) == sofar
    ensures ToLower(LanguageOf(sofar, entries)) == LanguageOf(sofar, entries)
    decreases |entries|
  {
    if entries != [] {
      if entries[0].LangCode? {
        CodeIsLower(entries[0].data);
      }
      LanguageIsLower(WithCode(sofar, entries[0]), entries[1..]);
    }
  }

  /** After any loads, loading a file and asking for one of its tags answers the direct meaning
      of the tag's source text, whatever was loaded before under that language. */
  lemma LoadedTextIsAnswered(files: seq<File>, file: File, name: string, source: string, env: Env, params: Parameters)
    requires ToUpper(name) in TextsOf(map[], file.entries)
    requires TextsOf(map[], file.entries)[ToUpper(name)] == Compile(source)
    requires !LiteralNul(Units(source)) && Meaning(Units(source), env, params) != ""
    ensures ValidTable(Load(LoadAll(EMPTY_TABLE, files), file))
    ensures Answer(Load(LoadAll(EMPTY_TABLE, files), file), LanguageOf("", file.entries), name, env, params)
            == Meaning(Units(source), env, params)
  {
    var t, p := LoadAll(EMPTY_TABLE, files), PlainLoadAll(EMPTY_PLAIN, files);
    var t', p' := Load(t, file), PlainLoad(p, file);
    var code := LanguageOf("", file.entries);
    LoadAllRefines(EMPTY_TABLE, EMPTY_PLAIN, files);
    LoadRefines(t, p, file);
    LastLoadDecides(p, file, name);
    SameFindCode(t'.languages, p'.texts, t'.defaultCode, code);
    var found := FindCode(p'.texts, p'.defaultCode, code);
    assert SlotOf(t'.dictionary, t'.languages[found.value], ToUpper(name))
           == TextFor(p'.texts[found.value], ToUpper(name));
    MeaningIsPreserved(source, env, params);
  }
}
