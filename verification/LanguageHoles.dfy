/** Null slots: when a language's vector, as loading leaves it, has a slot without a text, which
    the lookup with a call-out dereferences. */
module LanguageHoles {
  import Tokens
  import opened Text
  import opened LanguageText
  import opened LanguageMeaning
  import opened LanguageIndex
  import opened LanguageSegments

  // ----- vectors end in a text

  predicate Tight(slots: Slots) {
    slots == [] || slots[|slots| - 1].Some?
  }

  predicate AllTight(t: Table) {
    forall code | code in t.languages :: Tight(t.languages[code])
  }

  lemma EnterKeepsTight(l: Loading, entry: Entry)
    requires Numbered(l.dictionary, l.highest) && Tight(l.slots)
    ensures Tight(Enter(l, entry).slots)
  {
  }

  lemma {:induction false} EnterAllKeepsTight(l: Loading, entries: seq<Entry>)
    requires Numbered(l.dictionary, l.highest) && Tight(l.slots)
    ensures Tight(EnterAll(l, entries).slots)
    decreases |entries|
  {
    if entries != [] {
      EnterKeepsNumbering(l, entries[0]);
      EnterKeepsTight(l, entries[0]);
      EnterAllKeepsTight(Enter(l, entries[0]), entries[1..]);
    }
  }

  lemma MergeKeepsTight(mine: Slots, other: Slots)
    requires Tight(mine) && Tight(other)
    ensures Tight(Merge(mine, other))
  {
  }

  lemma LoadKeepsTight(t: Table, file: File)
    requires ValidTable(t) && AllTight(t)
    ensures AllTight(Load(t, file))
  {
    var l := EnterAll(Loading(t.dictionary, t.highest, [], ""), file.entries);
    EnterAllKeepsTight(Loading(t.dictionary, t.highest, [], ""), file.entries);
    var found := FindCode(t.languages, t.defaultCode, l.code);
    if found.Some? {
      MergeKeepsTight(t.languages[found.value], l.slots);
    }
  }

  lemma {:induction false} LoadAllKeepsTight(t: Table, files: seq<File>)
    requires ValidTable(t) && AllTight(t)
    ensures AllTight(LoadAll(t, files))
    decreases |files|
  {
    if files != [] {
      LoadKeepsValid(t, files[0]);
      LoadKeepsTight(t, files[0]);
      LoadAllKeepsTight(Load(t, files[0]), files[1..]);
    }
  }

  // ----- holes

  /** The language has a slot for the tag, and nothing in it. */
  predicate Hole(dictionary: map<string, nat>, slots: Slots, tag: string) {
    tag in dictionary && 0 < dictionary[tag] <= |slots| && slots[dictionary[tag] - 1].None?
  }

  /** The language lacks the tag and has a text for a tag numbered later. */
  ghost predicate Skipped(dictionary: map<string, nat>, texts: map<string, string>, tag: string) {
    && tag in dictionary && tag !in texts
    && exists other :: other in texts && other in dictionary && dictionary[tag] < dictionary[other]
  }

  lemma HoleIsSkipped(dictionary: map<string, nat>, highest: nat, slots: Slots, texts: map<string, string>, tag: string)
    requires Numbered(dictionary, highest) && |slots| <= highest && Tight(slots) && SameTexts(dictionary, slots, texts)
    ensures Hole(dictionary, slots, tag) <==> Skipped(dictionary, texts, tag)
  {
    assert SlotOf(dictionary, slots, tag) == TextFor(texts, tag);
    if Hole(dictionary, slots, tag) {
      assert |slots| in dictionary.Values;
      var last :| last in dictionary && dictionary[last] == |slots|;
      assert SlotOf(dictionary, slots, last) == TextFor(texts, last);
    }
    if Skipped(dictionary, texts, tag) {
      var other :| other in texts && other in dictionary && dictionary[tag] < dictionary[other];
      assert SlotOf(dictionary, slots, other) == TextFor(texts, other);
    }
  }

  /** After any loads, a stored language has a null slot for a known tag exactly when it lacks the
      tag and has a text for a tag numbered later. */
  lemma HolesExactly(files: seq<File>, code: string, tag: string)
    requires code in LoadAll(EMPTY_TABLE, files).languages
    ensures var t, p := LoadAll(EMPTY_TABLE, files), PlainLoadAll(EMPTY_PLAIN, files);
            code in p.texts
            && (Hole(t.dictionary, t.languages[code], tag) <==> Skipped(t.dictionary, p.texts[code], tag))
  {
    var t, p := LoadAll(EMPTY_TABLE, files), PlainLoadAll(EMPTY_PLAIN, files);
    LoadAllRefines(EMPTY_TABLE, EMPTY_PLAIN, files);
    LoadAllKeepsTight(EMPTY_TABLE, files);
    HoleIsSkipped(t.dictionary, t.highest, t.languages[code], p.texts[code], tag);
  }

  /** So that is exactly when the lookup with a call-out dereferences null; a tag numbered past the
      language's last text is refused, and a tag the language has is called out once. */
  lemma MultiCallOnLoadedTable(files: seq<File>, code: string, tag: string, source: string,
                               more: CallOut, env: Env, params: Parameters)
    requires code in LoadAll(EMPTY_TABLE, files).languages && tag in LoadAll(EMPTY_TABLE, files).dictionary
    ensures var t, p := LoadAll(EMPTY_TABLE, files), PlainLoadAll(EMPTY_PLAIN, files);
            var outcome := MultiCall(t.languages[code], t.dictionary[tag], more, env, params);
            && code in p.texts
            && (outcome == NullDereferenced <==> Skipped(t.dictionary, p.texts[code], tag))
            && (outcome == NoSlot <==> tag !in p.texts[code] && !Skipped(t.dictionary, p.texts[code], tag))
            && (tag in p.texts[code] && p.texts[code][tag] == Compile(source) ==>
                  outcome == Called([Processed(Compile(source), env, params)]))
  {
    var t, p := LoadAll(EMPTY_TABLE, files), PlainLoadAll(EMPTY_PLAIN, files);
    HolesExactly(files, code, tag);
    LoadAllRefines(EMPTY_TABLE, EMPTY_PLAIN, files);
    assert SlotOf(t.dictionary, t.languages[code], tag) == TextFor(p.texts[code], tag);
    LoadedTextIsOneSegment(source, more, env, params);
  }

  /** A language is safe for every ID exactly when its tags are the first ones numbered. */
  lemma SafeLanguagesExactly(files: seq<File>, code: string)
    requires code in LoadAll(EMPTY_TABLE, files).languages
    ensures var t, p := LoadAll(EMPTY_TABLE, files), PlainLoadAll(EMPTY_PLAIN, files);
            code in p.texts
            && ((forall i | 0 <= i < |t.languages[code]| :: t.languages[code][i].Some?)
                <==> forall tag :: !Skipped(t.dictionary, p.texts[code], tag))
  {
    var t, p := LoadAll(EMPTY_TABLE, files), PlainLoadAll(EMPTY_PLAIN, files);
    var slots := t.languages[code];
    HolesExactly(files, code, "");
    forall tag ensures Hole(t.dictionary, slots, tag) <==> Skipped(t.dictionary, p.texts[code], tag) {
      HolesExactly(files, code, tag);
    }
    if i :| 0 <= i < |slots| && slots[i].None? {
      assert i + 1 in t.dictionary.Values;
      var tag :| tag in t.dictionary && t.dictionary[tag] == i + 1;
      assert Hole(t.dictionary, slots, tag);
    }
  }

  // ----- a hole that loading leaves

  lemma EnterTwo(l: Loading, a: Entry, b: Entry)
    requires Numbered(l.dictionary, l.highest)
    ensures Numbered(Enter(l, a).dictionary, Enter(l, a).highest)
    ensures EnterAll(l, [a, b]) == Enter(Enter(l, a), b)
  {
    EnterKeepsNumbering(l, a);
    assert [a, b][1..] == [b] && [b][1..] == [];
    assert EnterAll(Enter(l, a), [b]) == EnterAll(Enter(Enter(l, a), b), []) by {
      EnterKeepsNumbering(Enter(l, a), b);
    }
  }

  /** A first file numbers A and B. */
  lemma FirstFile(a: string, b: string)
    ensures var t := Load(EMPTY_TABLE, File([Tag("A", a), Tag("B", b)], false));
            && t.dictionary == map["A" := 1, "B" := 2] && t.highest == 2
            && t.languages.Keys == {""} && t.defaultCode == Some("")
  {
    var l := Loading(map[], 0, [], "");
    assert ToUpper("A") == "A" && ToUpper("B") == "B";
    EnterTwo(l, Tag("A", a), Tag("B", b));
    assert Enter(l, Tag("A", a)).dictionary == map["A" := 1];
  }

  /** A French file with B alone then has a null slot for A. */
  lemma HoleIsReachable(a: string, b: string, c: string, more: CallOut, env: Env, params: Parameters)
    ensures var first, second := File([Tag("A", a), Tag("B", b)], false), File([LangCode("fr"), Tag("B", c)], false);
            var t := LoadAll(EMPTY_TABLE, [first, second]);
            && "fr" in t.languages && "A" in t.dictionary && Hole(t.dictionary, t.languages["fr"], "A")
            && MultiCall(t.languages["fr"], t.dictionary["A"], more, env, params) == NullDereferenced
  {
    var first, second := File([Tag("A", a), Tag("B", b)], false), File([LangCode("fr"), Tag("B", c)], false);
    var t1 := Load(EMPTY_TABLE, first);
    FirstFile(a, b);
    LoadKeepsValid(EMPTY_TABLE, first);
    var l := Loading(t1.dictionary, t1.highest, [], "");
    FrenchCode();
    assert ToUpper("B") == "B";
    EnterTwo(l, LangCode("fr"), Tag("B", c));
    assert EnterAll(l, second.entries) == Loading(t1.dictionary, 2, [None, Some(c)], "fr");
    var t2 := Load(t1, second);
    assert t2.languages["fr"] == [None, Some(c)];
    assert [first, second][1..] == [second] && [second][1..] == [];
    LoadKeepsValid(t1, second);
    assert LoadAll(t1, [second]) == LoadAll(t2, []) == t2;
  }

  lemma FrenchCode()
    ensures CodeOf("fr") == "fr" && ToLower("fr") == "fr"
  {
    assert ToLower("fr") == "fr";
    Tokens.TokenLengthUnique("fr", ' ', 2);
    assert "fr"[..2] == "fr";
  }
}
