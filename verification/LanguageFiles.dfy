/** From the lines of a language file to the answer: a tag's last line in the file decides what
    asking for the tag returns. */
module LanguageFiles {
  import opened Text
  import opened Tokens
  import opened LanguageText
  import opened LanguageMeaning
  import opened LanguageIndex
  import opened Languages
  import opened LanguageService

  // ----- trimming

  function TrimStart(s: string): (r: string)
    ensures |r| <= |s| && r == s[|s| - |r|..]
    ensures r != "" ==> !IsSpace(r[0])
  {
    if s != "" && IsSpace(s[0]) then TrimStart(s[1..]) else s
  }

  function TrimEnd(s: string): (r: string)
    ensures r <= s
  {
    if s != "" && IsSpace(s[|s| - 1]) then TrimEnd(s[..|s| - 1]) else s
  }

  lemma {:induction false} TrimIsBoth(s: string)
    ensures Trim(s) == TrimEnd(TrimStart(s))
    decreases |s|
  {
    if s == "" {
    } else if IsSpace(s[0]) {
      TrimIsBoth(s[1..]);
    } else if IsSpace(s[|s| - 1]) {
      var front := s[..|s| - 1];
      assert front[0] == s[0];
      TrimIsBoth(front);
    }
  }

  lemma {:induction false} TrimForgetsStart(s: string)
    ensures Trim(TrimStart(s)) == Trim(s)
    decreases |s|
  {
    if s != "" && IsSpace(s[0]) {
      TrimForgetsStart(s[1..]);
    }
  }

  lemma {:induction false} TrimDropsLast(s: string)
    requires s != "" && IsSpace(s[|s| - 1])
    ensures Trim(s) == Trim(s[..|s| - 1])
    decreases |s|
  {
    if IsSpace(s[0]) && |s| > 1 {
      TrimDropsLast(s[1..]);
      assert s[1..][..|s| - 2] == s[..|s| - 1][1..];
    }
  }

  lemma {:induction false} TrimForgetsEnd(s: string)
    ensures Trim(TrimEnd(s)) == Trim(s)
    decreases |s|
  {
    if s != "" && IsSpace(s[|s| - 1]) {
      TrimDropsLast(s);
      TrimForgetsEnd(s[..|s| - 1]);
    }
  }

  lemma {:induction false} TrimStartOfJoin(left: string, rest: string)
    requires TrimStart(left) != ""
    ensures TrimStart(left + rest) == TrimStart(left) + rest
    decreases |left|
  {
    assert (left + rest)[0] == left[0];
    if IsSpace(left[0]) {
      assert (left + rest)[1..] == left[1..] + rest;
      TrimStartOfJoin(left[1..], rest);
    }
  }

  lemma {:induction false} TrimEndOfJoin(head: string, source: string)
    requires head != "" && !IsSpace(head[|head| - 1])
    ensures TrimEnd(head + source) == head + TrimEnd(source)
    decreases |source|
  {
    var whole := head + source;
    if source == "" {
      assert whole == head && head + TrimEnd(source) == head;
    } else if IsSpace(source[|source| - 1]) {
      assert whole[..|whole| - 1] == head + source[..|source| - 1];
      TrimEndOfJoin(head, source[..|source| - 1]);
    }
  }

  // ----- one line

  /** The left side of a line that carries a text. */
  predicate NamesTag(left: string) {
    && '=' !in left && Trim(left) != ""
    && Trim(left)[0] != '#' && Trim(left)[0] != '.'
  }

  /** Both sides of the first equals sign, once the line is trimmed. */
  lemma TrimmedAssignment(left: string, source: string)
    requires '=' !in left && Trim(left) != ""
    ensures var start := TrimStart(left);
            && Trim(left + "=" + source) == start + "=" + TrimEnd(source)
            && start != "" && start[0] == Trim(left)[0] && '=' !in start
  {
    var start, raw := TrimStart(left), left + "=" + source;
    TrimIsBoth(left);
    TrimIsBoth(raw);
    ConcatAssoc(left, "=", source);
    TrimStartOfJoin(left, "=" + source);
    ConcatAssoc(start, "=", source);
    var head := start + "=";
    assert head[|head| - 1] == '=';
    TrimEndOfJoin(head, source);
  }

  /** A line `tag = source` enters the compiled source, without the blanks around it, under the tag. */
  lemma TagLineIsRead(left: string, source: string)
    requires NamesTag(left)
    ensures ReadLine(left + "=" + source) == Some(Tag(ToUpper(Trim(left)), Compile(Trim(source))))
  {
    var start := TrimStart(left);
    TrimmedAssignment(left, source);
    TokenOfJoin(start, '=', TrimEnd(source));
    TrimForgetsStart(left);
    TrimForgetsEnd(source);
    var tag := ToUpper(Trim(left));
    assert tag[0] != '.';
  }

  // ----- a file

  predicate Mentions(line: string, tag: string) {
    var entry := ReadLine(line);
    entry.Some? && entry.value.Tag? && ToUpper(entry.value.name) == tag
  }

  lemma {:induction false} TextStays(sofar: map<string, string>, lines: seq<string>, tag: string)
    requires tag in sofar && forall j :: 0 <= j < |lines| ==> !Mentions(lines[j], tag)
    ensures var texts := TextsOf(sofar, ReadLines(lines)); tag in texts && texts[tag] == sofar[tag]
    decreases |lines|
  {
    if lines != [] {
      var entry, rest := ReadLine(lines[0]), ReadLines(lines[1..]);
      assert !Mentions(lines[0], tag);
      if entry.None? {
        assert [] + rest == rest;
        TextStays(sofar, lines[1..], tag);
      } else {
        assert ([entry.value] + rest)[1..] == rest;
        TextStays(WithText(sofar, entry.value), lines[1..], tag);
      }
    }
  }

  /** The last line that mentions a tag decides its text. */
  lemma {:induction false} LastLineDecides(sofar: map<string, string>, lines: seq<string>, k: nat,
                                           tag: string, text: string)
    requires k < |lines| && Mentions(lines[k], tag) && ReadLine(lines[k]).value.text == text
    requires forall j :: k < j < |lines| ==> !Mentions(lines[j], tag)
    ensures var texts := TextsOf(sofar, ReadLines(lines)); tag in texts && texts[tag] == text
    decreases |lines|
  {
    var entry, rest := ReadLine(lines[0]), ReadLines(lines[1..]);
    if entry.None? {
      assert [] + rest == rest;
      LastLineDecides(sofar, lines[1..], k - 1, tag, text);
    } else {
      assert ([entry.value] + rest)[1..] == rest;
      var next := WithText(sofar, entry.value);
      if k == 0 {
        forall j | 0 <= j < |lines| - 1 ensures !Mentions(lines[1..][j], tag) {
          assert lines[1..][j] == lines[j + 1];
        }
        TextStays(next, lines[1..], tag);
      } else {
        LastLineDecides(next, lines[1..], k - 1, tag, text);
      }
    }
  }

  /** From file lines to answer: after any loads, a file is loaded whose last line for a tag is
      `tag = source`; asking for the tag in the file's language answers the meaning of the source. */
  lemma LoadedLineIsAnswered(files: seq<File>, lines: seq<string>, makeDefault: bool, k: nat,
                             left: string, source: string, env: Env, params: Parameters)
    requires k < |lines| && lines[k] == left + "=" + source && NamesTag(left)
    requires forall j :: k < j < |lines| ==> !Mentions(lines[j], ToUpper(Trim(left)))
    requires !LiteralNul(Units(Trim(source))) && Meaning(Units(Trim(source)), env, params) != ""
    ensures var file := File(ReadLines(lines), makeDefault);
            && ValidTable(Load(LoadAll(EMPTY_TABLE, files), file))
            && Answer(Load(LoadAll(EMPTY_TABLE, files), file), LanguageOf("", file.entries), Trim(left), env, params)
               == Meaning(Units(Trim(source)), env, params)
  {
    TagLineIsRead(left, source);
    UpperTwice(Trim(left));
    LastLineDecides(map[], lines, k, ToUpper(Trim(left)), Compile(Trim(source)));
    LoadedTextIsAnswered(files, File(ReadLines(lines), makeDefault), Trim(left), Trim(source), env, params);
  }

  /** The same over live objects: load the file, then ask. */
  method LoadAndAsk(languages: Languages, ghost files: seq<File>, lines: seq<string>, makeDefault: bool, ghost k: nat,
                    left: string, ghost source: string, env: Env, params: Parameters)
    returns (text: string)
    requires languages.Valid() && languages.Model() == LoadAll(EMPTY_TABLE, files)
    requires k < |lines| && lines[k] == left + "=" + source && NamesTag(left)
    requires forall j :: k < j < |lines| ==> !Mentions(lines[j], ToUpper(Trim(left)))
    requires !LiteralNul(Units(Trim(source))) && Meaning(Units(Trim(source)), env, params) != ""
    modifies languages, languages.languageDataMap.Values, languages.tagMaps
    ensures text == Meaning(Units(Trim(source)), env, params)
  {
    languages.LoadFile(lines, makeDefault);
    LoadedLineIsAnswered(files, lines, makeDefault, k, left, source, env, params);
    text := languages.Get(LanguageOf("", ReadLines(lines)), Trim(left), env, params);
  }
}
