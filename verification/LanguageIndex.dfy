/** The two-level language index of `Languages` as values: tag names to tag IDs, tag IDs to slots
    of each language's vector, files merged over what is loaded. It refines a plain nested map. */
module LanguageIndex {
  import opened Text
  import opened Tokens

  /** `LanguageData::tagData`: slot `id - 1` holds the text of tag `id`, None where nothing is stored. */
  type Slots = seq<Option<string>>

  const DEFAULT_LANGUAGE_CODE := "i-default"

  /** A preprocessed line of a language file. */
  datatype Entry = LangCode(data: string) | Tag(name: string, text: string)

  datatype File = File(entries: seq<Entry>, makeDefault: bool)

  /** The `LANGCODE` line names the language up to the first space. */
  function CodeOf(data: string): string {
    Token(ToLower(data), ' ')
  }

  // ----- the code

  datatype Table = Table(dictionary: map<string, nat>, highest: nat,
                         languages: map<string, Slots>, defaultCode: Option<string>)

  const EMPTY_TABLE := Table(map[], 0, map[], None)

  /** The state of one `loadFile` call. */
  datatype Loading = Loading(dictionary: map<string, nat>, highest: nat, slots: Slots, code: string)

  function Resize(slots: Slots, size: nat): (r: Slots)
    ensures |r| == (if |slots| < size then size else |slots|)
    ensures forall i | 0 <= i < |r| :: r[i] == if i < |slots| then slots[i] else None
  {
    if |slots| < size then slots + seq(size - |slots|, _ => None) else slots
  }

  function Enter(l: Loading, entry: Entry): Loading
    requires Numbered(l.dictionary, l.highest)
  {
    match entry
    case LangCode(data) => l.(code := CodeOf(data))
    case Tag(name, text) =>
      var tag := ToUpper(name);
      var isNew := tag !in l.dictionary;
      var id := if isNew then l.highest + 1 else l.dictionary[tag];
      Loading(if isNew then l.dictionary[tag := id] else l.dictionary,
              if isNew then id else l.highest,
              Resize(l.slots, id)[id - 1 := Some(text)], l.code)
  }

  function EnterAll(l: Loading, entries: seq<Entry>): Loading
    requires Numbered(l.dictionary, l.highest)
    decreases |entries|
  {
    if entries == [] then l
    else
      EnterKeepsNumbering(l, entries[0]);
      EnterAll(Enter(l, entries[0]), entries[1..])
  }

  function Merge(mine: Slots, other: Slots): (r: Slots)
    ensures |r| == |Resize(mine, |other|)|
    ensures forall i | 0 <= i < |r| :: r[i] == if i < |other| && other[i].Some? then other[i]
                                               else if i < |mine| then mine[i] else None
  {
    var sized := Resize(mine, |other|);
    seq(|sized|, i requires 0 <= i < |sized| => if i < |other| && other[i].Some? then other[i] else sized[i])
  }

  /** `findByCode`, as the code under which the language found is stored. */
  function FindCode<T>(languages: map<string, T>, defaultCode: Option<string>, code: string): Option<string> {
    var langCode := ToLower(code);
    if langCode in languages then Some(langCode)
    else if langCode == DEFAULT_LANGUAGE_CODE then defaultCode
    else None
  }

  function Load(t: Table, file: File): Table
    requires ValidTable(t)
  {
    var l := EnterAll(Loading(t.dictionary, t.highest, [], ""), file.entries);
    var found := FindCode(t.languages, t.defaultCode, l.code);
    var home := found.GetOr(l.code);
    var slots := if found.Some? then Merge(t.languages[home], l.slots) else l.slots;
    Table(l.dictionary, l.highest, t.languages[home := slots],
          if t.defaultCode.None? || file.makeDefault then Some(home) else t.defaultCode)
  }

  /** The text stored for a tag name in one language's slots. */
  function SlotOf(dictionary: map<string, nat>, slots: Slots, tag: string): Option<string> {
    if tag in dictionary && 0 < dictionary[tag] <= |slots| then slots[dictionary[tag] - 1] else None
  }

  /** Name to ID to slot: `getTagID`, `findByCode` and `LanguageData::get` before processing. */
  function Lookup(t: Table, code: string, name: string): Option<string>
    requires ValidTable(t)
  {
    var found := FindCode(t.languages, t.defaultCode, code);
    if found.Some? then SlotOf(t.dictionary, t.languages[found.value], ToUpper(name)) else None
  }

  // ----- what the index must keep

  /** Tag IDs number the known tag names 1 to `highest`: injectively and without gaps. */
  predicate Numbered(dictionary: map<string, nat>, highest: nat) {
    && (forall tag | tag in dictionary :: 1 <= dictionary[tag] <= highest)
    && (forall a, b | a in dictionary && b in dictionary && dictionary[a] == dictionary[b] :: a == b)
    && (forall id | 1 <= id <= highest :: id in dictionary.Values)
  }

  ghost predicate Extends(before: map<string, nat>, after: map<string, nat>) {
    forall tag | tag in before :: tag in after && after[tag] == before[tag]
  }

  predicate ValidTable(t: Table) {
    && Numbered(t.dictionary, t.highest)
    && (forall code | code in t.languages :: |t.languages[code]| <= t.highest)
    && (t.defaultCode.Some? ==> t.defaultCode.value in t.languages)
  }

  /** Language codes are stored in lower case. */
  lemma CodeIsLower(data: string)
    ensures ToLower(CodeOf(data)) == CodeOf(data)
  {
    assert forall i | 0 <= i < |CodeOf(data)| :: CodeOf(data)[i] == ToLower(data)[i];
  }

  lemma EnterKeepsNumbering(l: Loading, entry: Entry)
    requires Numbered(l.dictionary, l.highest)
    ensures var r := Enter(l, entry);
            && Numbered(r.dictionary, r.highest) && Extends(l.dictionary, r.dictionary)
            && l.highest <= r.highest && (|l.slots| <= l.highest ==> |r.slots| <= r.highest)
  {
    var r := Enter(l, entry);
    forall id | 1 <= id <= r.highest ensures id in r.dictionary.Values {
      if id <= l.highest {
        assert id in l.dictionary.Values;
        var tag :| tag in l.dictionary && l.dictionary[tag] == id;
        assert r.dictionary[tag] == id;
      } else {
        assert r.dictionary[ToUpper(entry.name)] == id;
      }
    }
  }

  // ----- the reference: a plain nested map

  datatype Plain = Plain(texts: map<string, map<string, string>>, defaultCode: Option<string>)

  const EMPTY_PLAIN := Plain(map[], None)

  function WithText(sofar: map<string, string>, entry: Entry): map<string, string> {
    if entry.Tag? then sofar[ToUpper(entry.name) := entry.text] else sofar
  }

  function WithCode(sofar: string, entry: Entry): string {
    if entry.LangCode? then CodeOf(entry.data) else sofar
  }

  /** A file's texts: later lines override earlier ones. */
  function TextsOf(sofar: map<string, string>, entries: seq<Entry>): map<string, string>
    decreases |entries|
  {
    if entries == [] then sofar else TextsOf(WithText(sofar, entries[0]), entries[1..])
  }

  function LanguageOf(sofar: string, entries: seq<Entry>): string
    decreases |entries|
  {
    if entries == [] then sofar else LanguageOf(WithCode(sofar, entries[0]), entries[1..])
  }

  /** Each load overrides what its language already has. */
  function PlainLoad(p: Plain, file: File): Plain
    requires p.defaultCode.Some? ==> p.defaultCode.value in p.texts
  {
    var code := LanguageOf("", file.entries);
    var found := FindCode(p.texts, p.defaultCode, code);
    var home := found.GetOr(code);
    var before := if found.Some? then p.texts[home] else map[];
    Plain(p.texts[home := before + TextsOf(map[], file.entries)],
          if p.defaultCode.None? || file.makeDefault then Some(home) else p.defaultCode)
  }

  function PlainLookup(p: Plain, code: string, name: string): Option<string>
    requires p.defaultCode.Some? ==> p.defaultCode.value in p.texts
  {
    var found := FindCode(p.texts, p.defaultCode, code);
    if found.Some? then TextFor(p.texts[found.value], ToUpper(name)) else None
  }

  function TextFor(texts: map<string, string>, tag: string): Option<string> {
    if tag in texts then Some(texts[tag]) else None
  }

  // ----- refinement

  ghost predicate SameTexts(dictionary: map<string, nat>, slots: Slots, texts: map<string, string>) {
    forall tag :: SlotOf(dictionary, slots, tag) == TextFor(texts, tag)
  }

  ghost predicate Refines(t: Table, p: Plain) {
    && ValidTable(t)
    && t.languages.Keys == p.texts.Keys && t.defaultCode == p.defaultCode
    && forall code | code in p.texts :: SameTexts(t.dictionary, t.languages[code], p.texts[code])
  }

  lemma EnterKeepsTexts(l: Loading, entry: Entry, texts: map<string, string>)
    requires Numbered(l.dictionary, l.highest) && |l.slots| <= l.highest
    requires SameTexts(l.dictionary, l.slots, texts)
    ensures SameTexts(Enter(l, entry).dictionary, Enter(l, entry).slots, WithText(texts, entry))
    ensures Enter(l, entry).code == WithCode(l.code, entry)
  {
    var r := Enter(l, entry);
    forall tag ensures SlotOf(r.dictionary, r.slots, tag) == TextFor(WithText(texts, entry), tag) {
      assert SlotOf(l.dictionary, l.slots, tag) == TextFor(texts, tag);
    }
  }

  lemma {:induction false} EnterAllKeepsTexts(l: Loading, entries: seq<Entry>, texts: map<string, string>)
    requires Numbered(l.dictionary, l.highest) && |l.slots| <= l.highest
    requires SameTexts(l.dictionary, l.slots, texts)
    ensures var r := EnterAll(l, entries);
            && Numbered(r.dictionary, r.highest) && |r.slots| <= r.highest
            && l.highest <= r.highest && Extends(l.dictionary, r.dictionary)
            && SameTexts(r.dictionary, r.slots, TextsOf(texts, entries))
            && r.code == LanguageOf(l.code, entries)
    decreases |entries|
  {
    if entries != [] {
      EnterKeepsNumbering(l, entries[0]);
      EnterKeepsTexts(l, entries[0], texts);
      EnterAllKeepsTexts(Enter(l, entries[0]), entries[1..], WithText(texts, entries[0]));
    }
  }

  /** Tags numbered later are unset in vectors built earlier. */
  lemma LaterTagsAreUnset(before: map<string, nat>, after: map<string, nat>, highest: nat, higher: nat,
                          slots: Slots, texts: map<string, string>)
    requires Numbered(before, highest) && Numbered(after, higher) && Extends(before, after)
    requires |slots| <= highest && SameTexts(before, slots, texts)
    ensures SameTexts(after, slots, texts)
  {
    forall tag ensures SlotOf(after, slots, tag) == TextFor(texts, tag) {
      assert SlotOf(before, slots, tag) == TextFor(texts, tag);
      if tag in after && after[tag] <= |slots| {
        assert after[tag] in before.Values;
        var known :| known in before && before[known] == after[tag];
        assert after[known] == after[tag];
      }
    }
  }

  lemma MergeKeepsTexts(dictionary: map<string, nat>, mine: Slots, other: Slots,
                        texts: map<string, string>, otherTexts: map<string, string>)
    requires SameTexts(dictionary, mine, texts) && SameTexts(dictionary, other, otherTexts)
    ensures SameTexts(dictionary, Merge(mine, other), texts + otherTexts)
  {
    forall tag ensures SlotOf(dictionary, Merge(mine, other), tag) == TextFor(texts + otherTexts, tag) {
      assert SlotOf(dictionary, mine, tag) == TextFor(texts, tag);
      assert SlotOf(dictionary, other, tag) == TextFor(otherTexts, tag);
    }
  }

  lemma SameFindCode<A, B>(a: map<string, A>, b: map<string, B>, defaultCode: Option<string>, code: string)
    requires a.Keys == b.Keys
    ensures FindCode(a, defaultCode, code) == FindCode(b, defaultCode, code)
  {
    assert ToLower(code) in a <==> ToLower(code) in a.Keys;
    assert ToLower(code) in b <==> ToLower(code) in b.Keys;
  }

  lemma LoadRefines(t: Table, p: Plain, file: File)
    requires Refines(t, p)
    ensures Refines(Load(t, file), PlainLoad(p, file))
    ensures Extends(t.dictionary, Load(t, file).dictionary)
  {
    var l := EnterAll(Loading(t.dictionary, t.highest, [], ""), file.entries);
    var t', p' := Load(t, file), PlainLoad(p, file);
    EnterAllKeepsTexts(Loading(t.dictionary, t.highest, [], ""), file.entries, map[]);
    SameFindCode(t.languages, p.texts, t.defaultCode, l.code);
    var fileTexts := TextsOf(map[], file.entries);
    assert map[] + fileTexts == fileTexts;
    forall code | code in p.texts ensures SameTexts(l.dictionary, t.languages[code], p.texts[code]) {
      LaterTagsAreUnset(t.dictionary, l.dictionary, t.highest, l.highest, t.languages[code], p.texts[code]);
    }
    var found := FindCode(t.languages, t.defaultCode, l.code);
    if found.Some? {
      MergeKeepsTexts(l.dictionary, t.languages[found.value], l.slots, p.texts[found.value], fileTexts);
    }
  }

  function LoadAll(t: Table, files: seq<File>): (r: Table)
    requires ValidTable(t)
    ensures ValidTable(r)
    decreases |files|
  {
    if files == [] then t
    else
      LoadKeepsValid(t, files[0]);
      LoadAll(Load(t, files[0]), files[1..])
  }

  function PlainLoadAll(p: Plain, files: seq<File>): (r: Plain)
    requires p.defaultCode.Some? ==> p.defaultCode.value in p.texts
    ensures r.defaultCode.Some? ==> r.defaultCode.value in r.texts
    decreases |files|
  {
    if files == [] then p else PlainLoadAll(PlainLoad(p, files[0]), files[1..])
  }

  lemma {:induction false} EnterAllKeepsNumbering(l: Loading, entries: seq<Entry>)
    requires Numbered(l.dictionary, l.highest) && |l.slots| <= l.highest
    ensures var r := EnterAll(l, entries);
            Numbered(r.dictionary, r.highest) && |r.slots| <= r.highest && l.highest <= r.highest
    decreases |entries|
  {
    if entries != [] {
      EnterKeepsNumbering(l, entries[0]);
      EnterAllKeepsNumbering(Enter(l, entries[0]), entries[1..]);
    }
  }

  lemma LoadKeepsValid(t: Table, file: File)
    requires ValidTable(t)
    ensures ValidTable(Load(t, file))
  {
    EnterAllKeepsNumbering(Loading(t.dictionary, t.highest, [], ""), file.entries);
  }

  lemma {:induction false} LoadAllRefines(t: Table, p: Plain, files: seq<File>)
    requires Refines(t, p)
    ensures Refines(LoadAll(t, files), PlainLoadAll(p, files))
    ensures Extends(t.dictionary, LoadAll(t, files).dictionary)
    decreases |files|
  {
    if files != [] {
      LoadRefines(t, p, files[0]);
      LoadAllRefines(Load(t, files[0]), PlainLoad(p, files[0]), files[1..]);
    }
  }

  /** After any loads, lookup by name, ID and slot returns what the plain nested map gives. */
  lemma IndexRefinesPlainMap(files: seq<File>, code: string, name: string)
    ensures Lookup(LoadAll(EMPTY_TABLE, files), code, name)
            == PlainLookup(PlainLoadAll(EMPTY_PLAIN, files), code, name)
  {
    var t, p := LoadAll(EMPTY_TABLE, files), PlainLoadAll(EMPTY_PLAIN, files);
    LoadAllRefines(EMPTY_TABLE, EMPTY_PLAIN, files);
    SameFindCode(t.languages, p.texts, t.defaultCode, code);
    var found := FindCode(t.languages, t.defaultCode, code);
    if found.Some? {
      assert SlotOf(t.dictionary, t.languages[found.value], ToUpper(name))
             == TextFor(p.texts[found.value], ToUpper(name));
    }
  }

  /** In every state reached by loading, tag IDs are an injective, gap-free numbering, and
      no later load changes an ID that has been assigned. */
  lemma TagIDsAreStable(files: seq<File>, more: seq<File>)
    ensures var before := LoadAll(EMPTY_TABLE, files);
            var after := LoadAll(before, more);
            && Numbered(before.dictionary, before.highest)
            && Extends(before.dictionary, after.dictionary)
  {
    LoadAllRefines(EMPTY_TABLE, EMPTY_PLAIN, files);
    LoadAllRefines(LoadAll(EMPTY_TABLE, files), PlainLoadAll(EMPTY_PLAIN, files), more);
  }
}
