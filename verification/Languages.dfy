/** The `Languages` object: it loads files in place and answers lookups, in step with
    the table model of `LanguageIndex`. */
module Languages {
  import opened Text
  import opened Tokens
  import opened LanguageText
  import opened LanguageIndex

  // ----- reading one line of a language file

  predicate IsSpace(c: char) {
    c == ' ' || '\t' <= c <= '\r'
  }

  /** The contract assumed for `AIS::Util::String::trim`. */
  function Trim(s: string): string
    decreases |s|
  {
    if s == "" then ""
    else if IsSpace(s[0]) then Trim(s[1..])
    else if IsSpace(s[|s| - 1]) then Trim(s[..|s| - 1])
    else s
  }

  /** Comments, blank lines and other control tags carry no text for the index. */
  function ReadLine(raw: string): Option<Entry> {
    var line := Trim(raw);
    if line == "" || line[0] == '#' then None
    else
      var tag := ToUpper(Trim(Token(line, '=')));
      var data := Trim(AfterToken(line, '='));
      if tag == ".LANGCODE" then Some(LangCode(data))
      else if tag != "" && tag[0] == '.' then None
      else Some(Tag(tag, Compile(data)))
  }

  function ReadLines(lines: seq<string>): seq<Entry> {
    if lines == [] then []
    else
      var entry := ReadLine(lines[0]);
      (if entry.Some? then [entry.value] else []) + ReadLines(lines[1..])
  }

  /** A stored text as shown; nothing stored shows as the empty text. */
  function Shown(stored: Option<string>, env: Env, params: Parameters): string {
    if stored.Some? then Processed(stored.value, env, params) else ""
  }

  /** What a lookup answers: the language's own text, else the default language's, else a glyph. */
  function Answer(t: Table, code: string, name: string, env: Env, params: Parameters): (text: string)
    requires ValidTable(t)
    ensures text != ""
  {
    var own := Shown(Lookup(t, code, name), env, params);
    var fallback := if t.defaultCode.Some?
                    then Shown(SlotOf(t.dictionary, t.languages[t.defaultCode.value], ToUpper(name)), env, params)
                    else "";
    if FindCode(t.languages, t.defaultCode, code).None? then [OBJECT_GLYPH]
    else if own != "" then own
    else if fallback != "" then fallback
    else [OBJECT_GLYPH]
  }

  lemma ReadLinesStep(lines: seq<string>, i: nat)
    requires i < |lines|
    ensures var entry := ReadLine(lines[i]);
            if entry.None? then ReadLines(lines[i..]) == ReadLines(lines[i + 1..])
            else ReadLines(lines[i..]) != [] && ReadLines(lines[i..])[0] == entry.value
                 && ReadLines(lines[i..])[1..] == ReadLines(lines[i + 1..])
  {
    assert lines[i..][0] == lines[i] && lines[i..][1..] == lines[i + 1..];
  }

  method ReadLineOf(raw: string) returns (entry: Option<Entry>)
    ensures entry == ReadLine(raw)
  {
    var line := Trim(raw);
    if line == "" || line[0] == '#' {
      return None;
    }
    var st := new StringTokens(line);
    var tag := st.NextToken('=');
    tag := ToUpper(Trim(tag));
    var data := st.Rest();
    data := Trim(data);
    var rewritten := RewriteData(data);
    var converted := SanitiseData(rewritten);
    if tag != "" && tag[0] == '.' {
      entry := if tag == ".LANGCODE" then Some(LangCode(data)) else None;
    } else {
      entry := Some(Tag(tag, converted));
    }
  }

  // ----- the objects

  class LanguageData {
    var tagData: Slots

    constructor ()
      ensures tagData == []
    {
      tagData := [];
    }

    /** `get` for one language: the processed text, empty when the slot is missing or null. */
    method Get(tagID: nat, env: Env, params: Parameters) returns (text: string)
      ensures text == if 0 < tagID <= |tagData| then Shown(tagData[tagID - 1], env, params) else ""
    {
      if tagID != 0 && tagID <= |tagData| {
        var tag := tagData[tagID - 1];
        if tag.Some? {
          text := Process(tag.value, env, params);
          return;
        }
      }
      text := "";
    }

    method SetTag(tagID: nat, text: string)
      requires tagID > 0
      modifies this
      ensures tagData == Resize(old(tagData), tagID)[tagID - 1 := Some(text)]
    {
      if |tagData| < tagID {
        tagData := Resize(tagData, tagID);
      }
      tagData := tagData[tagID - 1 := Some(text)];
    }

    method MergeWith(newData: LanguageData)
      requires newData != this
      modifies this
      ensures tagData == Merge(old(tagData), newData.tagData)
    {
      if |newData.tagData| > |tagData| {
        tagData := Resize(tagData, |newData.tagData|);
      }
      ghost var sized := tagData;
      for i := 0 to |newData.tagData|
        invariant |tagData| == |sized|
        invariant newData.tagData == old(newData.tagData)
        invariant forall k | 0 <= k < i ::
                    tagData[k] == if newData.tagData[k].Some? then newData.tagData[k] else sized[k]
        invariant forall k | i <= k < |sized| :: tagData[k] == sized[k]
      {
        if newData.tagData[i].Some? {
          tagData := tagData[i := newData.tagData[i]];
        }
      }
      assert tagData == Merge(old(tagData), newData.tagData);
    }
  }

  /** A module's table of tag names, its IDs filled in whenever files are loaded. */
  class TagMap {
    const names: seq<string>
    var ids: seq<nat>

    constructor (names: seq<string>)
      ensures this.names == names && |ids| == |names|
    {
      this.names := names;
      ids := seq(|names|, _ => 0);
    }
  }

  class Languages {
    var tagDictionary: map<string, nat>
    var highestTagID: nat
    var languageDataMap: map<string, LanguageData>
    var defaultLanguage: LanguageData?
    var tagMaps: set<TagMap>
    /** The code the default language is stored under. */
    ghost var defaultCode: Option<string>

    ghost function Vectors(): map<string, Slots>
      reads this, languageDataMap.Values
    {
      map code | code in languageDataMap :: languageDataMap[code].tagData
    }

    ghost function Model(): Table
      reads this, languageDataMap.Values
    {
      Table(tagDictionary, highestTagID, Vectors(), defaultCode)
    }

    ghost predicate OneObjectPerCode()
      reads this
    {
      forall a, b | a in languageDataMap && b in languageDataMap :: languageDataMap[a] == languageDataMap[b] ==> a == b
    }

    ghost predicate Valid()
      reads this, languageDataMap.Values, tagMaps
    {
      && ValidTable(Model())
      && OneObjectPerCode() && DefaultIsStored()
      && forall m | m in tagMaps :: Current(m)
    }

    ghost predicate DefaultIsStored()
      reads this
    {
      && (defaultLanguage != null <==> defaultCode.Some?)
      && (defaultCode.Some? ==> defaultCode.value in languageDataMap
                                && languageDataMap[defaultCode.value] == defaultLanguage)
    }

    function GetTagID(tagName: string): nat
      reads this
    {
      if ToUpper(tagName) in tagDictionary then tagDictionary[ToUpper(tagName)] else 0
    }

    /** Every ID in the map is the one its tag name has now, 0 for unknown names. */
    ghost predicate Current(m: TagMap)
      reads this, m
    {
      |m.ids| == |m.names| && forall i | 0 <= i < |m.ids| :: m.ids[i] == GetTagID(m.names[i])
    }

    constructor ()
      ensures Valid() && Model() == EMPTY_TABLE && tagMaps == {}
    {
      tagDictionary, highestTagID, languageDataMap := map[], 0, map[];
      defaultLanguage, defaultCode, tagMaps := null, None, {};
    }

    method ProcessTagMap(m: TagMap)
      modifies m
      ensures Current(m)
    {
      var ids := [];
      for i := 0 to |m.names|
        invariant |ids| == i && forall k | 0 <= k < i :: ids[k] == GetTagID(m.names[k])
      {
        ids := ids + [GetTagID(m.names[i])];
      }
      m.ids := ids;
    }

    method ProcessMaps()
      modifies tagMaps
      ensures forall m | m in tagMaps :: Current(m)
    {
      var left := tagMaps;
      while left != {}
        invariant left <= tagMaps
        invariant forall m | m in tagMaps && m !in left :: Current(m)
        decreases left
      {
        var m :| m in left;
        ProcessTagMap(m);
        left := left - {m};
      }
    }

    method RegisterMap(m: TagMap)
      requires Valid()
      modifies this`tagMaps, m
      ensures Valid() && Model() == old(Model())
      ensures tagMaps == old(tagMaps) + {m}
    {
      tagMaps := tagMaps + {m};
      ProcessTagMap(m);
    }

    method DeregisterMap(m: TagMap)
      requires Valid()
      modifies this`tagMaps
      ensures Valid() && Model() == old(Model())
      ensures tagMaps == old(tagMaps) - {m}
    {
      tagMaps := tagMaps - {m};
    }

    method FindByCode(code: string) returns (found: LanguageData?)
      requires DefaultIsStored()
      ensures var stored := FindCode(languageDataMap, defaultCode, code);
              found == if stored.Some? then languageDataMap[stored.value] else null
    {
      var langCode := ToLower(code);
      if langCode in languageDataMap {
        return languageDataMap[langCode];
      }
      if langCode == DEFAULT_LANGUAGE_CODE {
        return defaultLanguage;
      }
      return null;
    }

    /** One line of the file: a language code, or a text for a known or a new tag. */
    method EnterEntry(data: LanguageData, code: string, entry: Entry) returns (newCode: string)
      requires Numbered(tagDictionary, highestTagID) && ToLower(code) == code
      modifies this`tagDictionary, this`highestTagID, data
      ensures ToLower(newCode) == newCode
      ensures Loading(tagDictionary, highestTagID, data.tagData, newCode)
              == Enter(Loading(old(tagDictionary), old(highestTagID), old(data.tagData), code), entry)
    {
      newCode := code;
      match entry
      case LangCode(text) =>
        CodeIsLower(text);
        newCode := CodeOf(text);
      case Tag(name, text) =>
        var tag := ToUpper(name);
        var tagID;
        if tag !in tagDictionary {
          highestTagID := highestTagID + 1;
          tagID := highestTagID;
          tagDictionary := tagDictionary[tag := tagID];
        } else {
          tagID := tagDictionary[tag];
        }
        data.SetTag(tagID, text);
    }

    /** The line loop of `loadFile`: fills a new `LanguageData` and the shared dictionary. */
    method ReadEntries(lines: seq<string>) returns (data: LanguageData, code: string)
      requires Numbered(tagDictionary, highestTagID)
      modifies this`tagDictionary, this`highestTagID
      ensures fresh(data) && ToLower(code) == code
      ensures Loading(tagDictionary, highestTagID, data.tagData, code)
              == EnterAll(Loading(old(tagDictionary), old(highestTagID), [], ""), ReadLines(lines))
    {
      data := new LanguageData();
      code := "";
      ghost var goal := EnterAll(Loading(tagDictionary, highestTagID, [], ""), ReadLines(lines));
      assert lines[0..] == lines;
      for i := 0 to |lines|
        invariant fresh(data) && ToLower(code) == code
        invariant Numbered(tagDictionary, highestTagID)
        invariant EnterAll(Loading(tagDictionary, highestTagID, data.tagData, code), ReadLines(lines[i..])) == goal
      {
        var entry := ReadLineOf(lines[i]);
        ReadLinesStep(lines, i);
        if entry.Some? {
          EnterKeepsNumbering(Loading(tagDictionary, highestTagID, data.tagData, code), entry.value);
          code := EnterEntry(data, code, entry.value);
        }
      }
    }

    /** Store the file's data under its code, or merge it over the language found there. */
    method Install(fileData: LanguageData, code: string) returns (data: LanguageData, ghost home: string)
      requires OneObjectPerCode() && DefaultIsStored() && fileData !in languageDataMap.Values
      requires ToLower(code) == code
      modifies this`languageDataMap, languageDataMap.Values
      ensures OneObjectPerCode() && DefaultIsStored()
      ensures home == FindCode(old(languageDataMap), defaultCode, code).GetOr(code)
      ensures Vectors() == old(Vectors())[home := if FindCode(old(languageDataMap), defaultCode, code).Some?
                                                  then Merge(old(Vectors())[home], old(fileData.tagData))
                                                  else old(fileData.tagData)]
      ensures home in languageDataMap && languageDataMap[home] == data
      ensures forall c | c in old(languageDataMap) ::
                c in languageDataMap && languageDataMap[c] == old(languageDataMap[c])
    {
      var langData := FindByCode(code);
      home := FindCode(languageDataMap, defaultCode, code).GetOr(code);
      if langData == null {
        assert code !in languageDataMap;
        languageDataMap := languageDataMap[code := fileData];
        data := fileData;
      } else {
        langData.MergeWith(fileData);
        data := langData;
      }
    }

    method Adopt(fileData: LanguageData, code: string, makeDefault: bool)
      requires OneObjectPerCode() && DefaultIsStored() && fileData !in languageDataMap.Values
      requires ToLower(code) == code
      modifies this`languageDataMap, this`defaultLanguage, this`defaultCode, languageDataMap.Values
      ensures OneObjectPerCode() && DefaultIsStored()
      ensures var found := FindCode(old(Vectors()), old(defaultCode), code);
              var home := found.GetOr(code);
              && Vectors()
                 == old(Vectors())[home := if found.Some? then Merge(old(Vectors())[home], old(fileData.tagData))
                                           else old(fileData.tagData)]
              && defaultCode == if old(defaultCode).None? || makeDefault then Some(home) else old(defaultCode)
      ensures forall c | c in old(languageDataMap) ::
                c in languageDataMap && languageDataMap[c] == old(languageDataMap[c])
    {
      SameFindCode(languageDataMap, Vectors(), defaultCode, code);
      var data;
      ghost var home;
      data, home := Install(fileData, code);
      if defaultLanguage == null || makeDefault {
        defaultLanguage, defaultCode := data, Some(home);
      }
    }

    method LoadFile(lines: seq<string>, makeDefault: bool)
      requires Valid()
      modifies this, languageDataMap.Values, tagMaps
      ensures Valid() && Model() == Load(old(Model()), File(ReadLines(lines), makeDefault))
      ensures tagMaps == old(tagMaps)
      ensures forall code | code in old(languageDataMap) ::
                code in languageDataMap && languageDataMap[code] == old(languageDataMap[code])
    {
      LoadKeepsValid(Model(), File(ReadLines(lines), makeDefault));
      EnterAllKeepsNumbering(Loading(tagDictionary, highestTagID, [], ""), ReadLines(lines));
      ghost var vectors := Vectors();
      var data, code := ReadEntries(lines);
      assert Vectors() == vectors;
      Adopt(data, code, makeDefault);
      assert Model() == Load(old(Model()), File(ReadLines(lines), makeDefault));
      ProcessMaps();
    }

    method Get(code: string, tagName: string, env: Env, params: Parameters) returns (text: string)
      requires Valid()
      ensures text == Answer(Model(), code, tagName, env, params)
    {
      var languageData := FindByCode(code);
      SameFindCode(languageDataMap, Vectors(), defaultCode, code);
      var tagID := GetTagID(tagName);
      if languageData != null {
        text := languageData.Get(tagID, env, params);
        if text != "" {
          return;
        }
        if defaultLanguage != null {
          text := defaultLanguage.Get(tagID, env, params);
          if text != "" {
            return;
          }
        }
      }
      text := [OBJECT_GLYPH];
    }
  }
}
