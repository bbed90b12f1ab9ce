/** The message format of section 2.3.1 of RFC 2812 as this code prints it
    (`LibIRC2::Output`) and reads it (`LibIRC2::Input::parseLine`), and exactly when
    reading undoes printing. */
module MessageFormat {
  import opened Text
  import opened Tokens

  /** A message as handed to `parseMessage`; no origin and an empty origin look alike there. */
  datatype Message = Message(origin: string, command: string, params: seq<string>)

  /** A call of `sendMessage` (no origin) or `sendMessageFrom`. */
  datatype Outgoing = Outgoing(origin: Option<string>, command: string, params: seq<string>)

  function Meant(m: Outgoing): Message {
    Message(if m.origin.Some? then m.origin.value else "", m.command, m.params)
  }

  predicate Colon(word: string) {
    word != "" && word[0] == ':'
  }

  // ----- printing

  /** Every parameter after a space, the last one after a colon as well. */
  function ParamText(params: seq<string>): string {
    if params == [] then ""
    else if |params| == 1 then " " + (":" + params[0])
    else " " + (params[0] + ParamText(params[1..]))
  }

  function Format(m: Outgoing): string {
    (if m.origin.Some? then ":" + m.origin.value + " " else "") + m.command + ParamText(m.params)
  }

  // ----- parsing

  function ParseParams(rest: string): seq<string>
    decreases |rest|
  {
    if rest == "" then []
    else
      var word, more := Token(rest, ' '), AfterToken(rest, ' ');
      if Colon(word) then [if more != "" then word[1..] + " " + more else word[1..]]
      else [word] + ParseParams(more)
  }

  /** One turn of the parameter loop, once `sofar` has been collected. */
  lemma ParseStep(sofar: seq<string>, rest: string)
    requires rest != ""
    ensures var word, more := Token(rest, ' '), AfterToken(rest, ' ');
            if Colon(word) then ParseParams(rest) == [if more != "" then word[1..] + " " + more else word[1..]]
            else sofar + ParseParams(rest) == (sofar + [word]) + ParseParams(more)
  {
    var word, more := Token(rest, ' '), AfterToken(rest, ' ');
    ConcatAssoc(sofar, [word], ParseParams(more));
  }

  function ParseCommand(origin: string, text: string): Option<Message> {
    var command := ToUpper(Token(text, ' '));
    if command == "" then None else Some(Message(origin, command, ParseParams(AfterToken(text, ' '))))
  }

  /** The message one line dispatches, if any. */
  function Parse(line: string): Option<Message> {
    if Colon(line) then ParseCommand(Token(line, ' ')[1..], AfterToken(line, ' '))
    else ParseCommand("", line)
  }

  // ----- exactly which messages survive

  predicate SpaceFree(s: string) {
    ' ' !in s
  }

  /** A space-free word and one final space: printing it as the last parameter loses the space. */
  predicate LosesItsSpace(last: string) {
    last != "" && last[|last| - 1] == ' ' && SpaceFree(last[..|last| - 1])
  }

  predicate GoodParams(params: seq<string>) {
    && (forall i | 0 <= i < |params| - 1 :: SpaceFree(params[i]) && !Colon(params[i]))
    && (params != [] ==> !LosesItsSpace(params[|params| - 1]))
  }

  predicate GoodMessage(m: Message) {
    && SpaceFree(m.origin)
    && m.command != "" && SpaceFree(m.command) && ToUpper(m.command) == m.command
    && GoodParams(m.params)
  }

  predicate WellFormed(m: Outgoing) {
    GoodMessage(Meant(m)) && (m.origin.None? ==> !Colon(m.command))
  }

  lemma TokenIsSpaceFree(s: string)
    ensures SpaceFree(Token(s, ' '))
  {
  }

  /** Printing a space-free word before `tail`, which is empty or starts with a space. */
  lemma WordThenTail(word: string, tail: string)
    requires SpaceFree(word) && (tail == "" || tail[0] == ' ')
    ensures Token(word + tail, ' ') == word
    ensures AfterToken(word + tail, ' ') == if tail == "" then "" else tail[1..]
  {
    if tail == "" {
      TokenOfJoin(word, ' ', "");
      assert word + tail == word;
    } else {
      TokenOfJoin(word, ' ', tail[1..]);
      assert word + tail == word + [' '] + tail[1..];
    }
  }

  lemma GoodParamsTail(params: seq<string>)
    requires |params| > 1 && GoodParams(params)
    ensures SpaceFree(params[0]) && !Colon(params[0])
    ensures GoodParams(params[1..])
  {
    forall i | 0 <= i < |params| - 2
      ensures SpaceFree(params[1..][i]) && !Colon(params[1..][i])
    {
      assert params[1..][i] == params[i + 1];
    }
  }

  lemma ParamTextLeads(params: seq<string>)
    requires params != []
    ensures ParamText(params) != "" && ParamText(params)[0] == ' '
    ensures |params| > 1 ==> ParamText(params)[1..] == params[0] + ParamText(params[1..])
    ensures |params| == 1 ==> ParamText(params)[1..] == ":" + params[0]
  {
    var text := if |params| == 1 then ":" + params[0] else params[0] + ParamText(params[1..]);
    assert ParamText(params) == " " + text;
    assert (" " + text)[1..] == text;
  }

  lemma ParseWord(word: string, tail: string)
    requires SpaceFree(word) && !Colon(word) && tail != "" && tail[0] == ' '
    ensures ParseParams(word + tail) == [word] + ParseParams(tail[1..])
  {
    WordThenTail(word, tail);
  }

  lemma {:induction false} ParamsRoundTrip(params: seq<string>)
    requires params != [] && GoodParams(params)
    ensures ParseParams(ParamText(params)[1..]) == params
    decreases |params|
  {
    ParamTextLeads(params);
    if |params| == 1 {
      LastRoundTrip(params[0]);
    } else {
      GoodParamsTail(params);
      ParamTextLeads(params[1..]);
      ParseWord(params[0], ParamText(params[1..]));
      ParamsRoundTrip(params[1..]);
    }
  }

  lemma LastRoundTrip(last: string)
    requires !LosesItsSpace(last)
    ensures ParseParams(":" + last) == [last]
  {
    var text := ":" + last;
    var n := TokenLength(text, ' ');
    var word, more := Token(text, ' '), AfterToken(text, ' ');
    assert n > 0 ==> word[0] == text[0];
    assert text[..n][0] == text[0];
    if n == |text| {
      assert word == text && text[1..] == last;
    } else {
      assert word[1..] == last[..n - 1] && last[n - 1] == text[n] == ' ';
      assert more == last[n..];
      assert last == last[..n - 1] + " " + last[n..];
      assert SpaceFree(last[..n - 1]);
    }
  }

  lemma GoodParamsCons(word: string, tail: seq<string>)
    requires SpaceFree(word) && !Colon(word) && GoodParams(tail)
    ensures GoodParams([word] + tail)
  {
    var all := [word] + tail;
    forall i | 0 <= i < |all| - 1
      ensures SpaceFree(all[i]) && !Colon(all[i])
    {
      assert i == 0 || all[i] == tail[i - 1];
    }
    if tail == [] {
      assert word != "" ==> word[|word| - 1] in word;
    } else {
      assert all[|all| - 1] == tail[|tail| - 1];
    }
  }

  lemma ParsedLastIsGood(word: string, more: string)
    requires SpaceFree(word)
    ensures !LosesItsSpace(word)
    ensures more != "" ==> !LosesItsSpace(word + " " + more)
  {
    assert word != "" ==> word[|word| - 1] in word;
    if more != "" {
      var last := word + " " + more;
      assert last[..|last| - 1][|word|] == ' ';
    }
  }

  /** Everything the parser can produce is good. */
  lemma {:induction false} ParsedParamsAreGood(rest: string)
    ensures GoodParams(ParseParams(rest))
    decreases |rest|
  {
    if rest != "" {
      var word, more := Token(rest, ' '), AfterToken(rest, ' ');
      TokenIsSpaceFree(rest);
      if Colon(word) {
        assert forall i | 0 <= i < |word| - 1 :: word[1..][i] == word[i + 1];
        ParsedLastIsGood(word[1..], more);
      } else {
        ParsedParamsAreGood(more);
        GoodParamsCons(word, ParseParams(more));
      }
    }
  }

  lemma UpperKeepsSpaces(s: string)
    requires SpaceFree(s)
    ensures SpaceFree(ToUpper(s)) && ToUpper(ToUpper(s)) == ToUpper(s)
  {
    forall i | 0 <= i < |s| ensures ToUpper(s)[i] != ' ' {
      assert s[i] in s;
    }
  }

  lemma ParsedMessageIsGood(line: string)
    requires Parse(line).Some?
    ensures GoodMessage(Parse(line).value)
  {
    var text := if Colon(line) then AfterToken(line, ' ') else line;
    TokenIsSpaceFree(line);
    TokenIsSpaceFree(text);
    UpperKeepsSpaces(Token(text, ' '));
    ParsedParamsAreGood(AfterToken(text, ' '));
  }

  /** Octets needed to print a parameter list. */
  function Weight(params: seq<string>): nat {
    if params == [] then 0 else |params[0]| + 1 + Weight(params[1..])
  }

  lemma {:induction false} ParamTextWeight(params: seq<string>)
    ensures |ParamText(params)| == if params == [] then 0 else Weight(params) + 1
    decreases |params|
  {
    if |params| > 1 {
      ParamTextWeight(params[1..]);
    }
  }

  lemma {:induction false} ParsedWeight(rest: string)
    ensures Weight(ParseParams(rest)) <= |rest| + 1
    ensures rest == "" ==> Weight(ParseParams(rest)) == 0
    decreases |rest|
  {
    if rest != "" {
      var word, more := Token(rest, ' '), AfterToken(rest, ' ');
      assert |word| + |more| + 1 == |rest| || (more == "" && |word| == |rest|);
      if Colon(word) {
        assert Weight([ParseParams(rest)[0]][1..]) == 0;
      } else {
        ParsedWeight(more);
        assert ([word] + ParseParams(more))[1..] == ParseParams(more);
      }
    }
  }

  /** With no origin, a colon-led command is taken for an origin and never comes back. */
  lemma ColonCommandIsLost(command: string, params: seq<string>)
    requires Colon(command) && SpaceFree(command)
    ensures Parse(command + ParamText(params)) != Some(Message("", command, params))
  {
    var tail := ParamText(params);
    var line := command + tail;
    assert tail == "" || tail[0] == ' ';
    assert line[0] == command[0];
    WordThenTail(command, tail);
    var text := AfterToken(line, ' ');
    if Parse(line) == Some(Message("", command, params)) {
      assert command[1..] == "";
      assert |Token(text, ' ')| == |ToUpper(Token(text, ' '))| == 1;
      ParamTextWeight(params);
      ParsedWeight(AfterToken(text, ' '));
      assert false;
    }
  }

  /** Reading undoes printing exactly for the well-formed messages. */
  lemma ParserUndoesPrinter(m: Outgoing)
    ensures Parse(Format(m)) == Some(Meant(m)) <==> WellFormed(m)
  {
    var tail := ParamText(m.params);
    var body := m.command + tail;
    assert tail == "" || tail[0] == ' ';
    if m.origin.None? {
      assert Format(m) == body;
      if Parse(body) == Some(Meant(m)) {
        ParsedMessageIsGood(body);
        if Colon(m.command) {
          ColonCommandIsLost(m.command, m.params);
        }
      }
    } else {
      var line := Format(m);
      assert line == ":" + m.origin.value + " " + body;
      assert Colon(line);
      if Parse(line) == Some(Meant(m)) {
        ParsedMessageIsGood(line);
      }
      if SpaceFree(m.origin.value) {
        var lead := ":" + m.origin.value;
        assert SpaceFree(lead);
        TokenOfJoin(lead, ' ', body);
        assert line == lead + [' '] + body;
        assert lead[1..] == m.origin.value;
      }
    }
    if WellFormed(m) {
      WordThenTail(m.command, tail);
      assert body[0] == m.command[0];
      if m.params != [] {
        ParamsRoundTrip(m.params);
      }
    }
  }
}
