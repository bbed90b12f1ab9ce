/** What a peer may send that this program would not print itself: commands in any case, parameters
    without a colon. What is dispatched, and what for, line by line and through the framer. */
module MessageCases {
  import opened Text
  import opened Tokens
  import opened Framing
  import opened FramingRuns
  import opened FramingRepair
  import opened MessageFormat
  import opened Irc2Protocol
  import opened WirePipeline

  // ----- which lines are dispatched

  /** A command word: no spaces, and without an origin in front no leading colon. */
  predicate Typable(m: Outgoing) {
    && m.command != "" && SpaceFree(m.command) && (m.origin.None? ==> !Colon(m.command))
    && (m.origin.Some? ==> SpaceFree(m.origin.value)) && GoodParams(m.params)
  }

  /** What the handler hears: the command in upper case, everything else verbatim. */
  function Heard(m: Outgoing): Message {
    Message(if m.origin.Some? then m.origin.value else "", ToUpper(m.command), m.params)
  }

  lemma CommandIsParsed(origin: string, command: string, params: seq<string>)
    requires command != "" && SpaceFree(command) && GoodParams(params)
    ensures ParseCommand(origin, command + ParamText(params)) == Some(Message(origin, ToUpper(command), params))
  {
    var tail := ParamText(params);
    if params != [] {
      ParamTextLeads(params);
      ParamsRoundTrip(params);
    }
    WordThenTail(command, tail);
  }

  lemma TypedBare(command: string, params: seq<string>)
    requires command != "" && SpaceFree(command) && !Colon(command) && GoodParams(params)
    ensures Parse(command + ParamText(params)) == Some(Message("", ToUpper(command), params))
  {
    CommandIsParsed("", command, params);
    CommandLeads(command, ParamText(params));
  }

  lemma TypedFrom(origin: string, command: string, params: seq<string>)
    requires SpaceFree(origin) && command != "" && SpaceFree(command) && GoodParams(params)
    ensures Parse(":" + origin + " " + (command + ParamText(params))) == Some(Message(origin, ToUpper(command), params))
  {
    CommandIsParsed(origin, command, params);
    OriginIsParsed(origin, command + ParamText(params));
  }

  lemma FormatForm(m: Outgoing)
    ensures m.origin.None? ==> Format(m) == m.command + ParamText(m.params)
    ensures m.origin.Some? ==> Format(m) == ":" + m.origin.value + " " + (m.command + ParamText(m.params))
  {
    if m.origin.Some? {
      ConcatAssoc(":" + m.origin.value + " ", m.command, ParamText(m.params));
    } else {
      assert "" + m.command == m.command;
    }
  }

  /** A typed line, in whatever case, is dispatched as the command in upper case with its parameters. */
  lemma AnyCaseIsDispatched(m: Outgoing)
    requires Typable(m)
    ensures Parse(Format(m)) == Some(Heard(m))
  {
    FormatForm(m);
    if m.origin.None? {
      TypedBare(m.command, m.params);
    } else {
      TypedFrom(m.origin.value, m.command, m.params);
    }
  }

  lemma CommandLeads(command: string, tail: string)
    requires command != "" && !Colon(command)
    ensures Parse(command + tail) == ParseCommand("", command + tail)
  {
    assert (command + tail)[0] == command[0];
  }

  lemma OriginIsParsed(origin: string, body: string)
    requires SpaceFree(origin)
    ensures Parse(":" + origin + " " + body) == ParseCommand(origin, body)
  {
    var lead := ":" + origin;
    assert SpaceFree(lead) && lead[1..] == origin;
    var line := lead + [' '] + body;
    assert line == ":" + origin + " " + body && line[0] == ':';
    TokenOfJoin(lead, ' ', body);
  }

  /** Where a line's command begins: after the origin and one space, if there is an origin. */
  function CommandStart(line: string): nat {
    if Colon(line) then TokenLength(line, ' ') + 1 else 0
  }

  /** A line is dispatched exactly when its command word is not empty. */
  lemma DispatchedExactly(line: string)
    ensures Parse(line).Some? <==> CommandStart(line) < |line| && line[CommandStart(line)] != ' '
  {
    var text := if Colon(line) then AfterToken(line, ' ') else line;
    assert text == if CommandStart(line) < |line| then line[CommandStart(line)..] else "";
    if text != "" {
      assert text[0] == line[CommandStart(line)];
      assert TokenLength(text, ' ') == 0 <==> text[0] == ' ';
    }
  }

  // ----- parameters without a colon

  function Spaced(words: seq<string>): string {
    if words == [] then "" else " " + words[0] + Spaced(words[1..])
  }

  predicate PlainWords(words: seq<string>) {
    && (forall i | 0 <= i < |words| :: SpaceFree(words[i]) && !Colon(words[i]))
    && (words != [] ==> words[|words| - 1] != "")
  }

  lemma {:induction false} PlainWordsAreRead(words: seq<string>)
    requires words != [] && PlainWords(words)
    ensures Spaced(words) != "" && Spaced(words)[0] == ' ' && ParseParams(Spaced(words)[1..]) == words
    decreases |words|
  {
    var word, rest := words[0], words[1..];
    var tail := Spaced(rest);
    assert Spaced(words)[1..] == word + tail;
    if rest == [] {
      assert word + tail == word && words == [word];
      TokenOfJoin(word, ' ', "");
      assert ParseParams(word) == [word] + ParseParams("");
    } else {
      assert rest[|rest| - 1] == words[|words| - 1];
      PlainWordsAreRead(rest);
      ParseWord(word, tail);
    }
  }

  /** Words separated by single spaces are the parameters, empty ones between two spaces included. */
  lemma WordsAreParameters(command: string, words: seq<string>)
    requires command != "" && SpaceFree(command) && !Colon(command) && PlainWords(words)
    ensures Parse(command + Spaced(words)) == Some(Message("", ToUpper(command), words))
  {
    var tail := Spaced(words);
    if words != [] {
      PlainWordsAreRead(words);
    }
    WordThenTail(command, tail);
    assert (command + tail)[0] == command[0];
  }

  lemma PrintedTail(a: string, b: string)
    ensures ParamText([a]) == " :" + a
    ensures ParamText([a, b]) == " " + a + " :" + b
  {
    assert " " + (":" + a) == " :" + a;
    assert " " + (":" + b) == " :" + b;
    assert [a, b][1..] == [b];
    ConcatAssoc(" ", a, " :" + b);
    ConcatAssoc(" " + a, " :", b);
  }

  /** The printed form, character by character. */
  lemma PrintedForm(origin: string, command: string, a: string, b: string)
    ensures Format(Outgoing(None, command, [])) == command
    ensures Format(Outgoing(None, command, [a])) == command + (" :" + a)
    ensures Format(Outgoing(Some(origin), command, [a, b])) == ":" + origin + " " + command + (" " + a + " :" + b)
    ensures EOL_CR_LF == "\r\n"
  {
    PrintedTail(a, b);
    assert "" + command + "" == command;
    assert "" + command + ParamText([a]) == command + ParamText([a]);
  }

  // ----- through the framer

  predicate AllTypable(ms: seq<Outgoing>) {
    forall i | 0 <= i < |ms| :: Typable(ms[i]) && !HasEol(Format(ms[i]))
  }

  function AllHeard(ms: seq<Outgoing>): (r: seq<Message>)
    ensures |r| == |ms| && forall i | 0 <= i < |ms| :: r[i] == Heard(ms[i])
  {
    seq(|ms|, i requires 0 <= i < |ms| => Heard(ms[i]))
  }

  lemma TypedLineIsNotEmpty(m: Outgoing)
    requires Typable(m)
    ensures Format(m) != ""
  {
  }

  lemma TypedCons(ms: seq<Outgoing>)
    requires ms != [] && AllTypable(ms)
    ensures Lines(ms) == [Format(ms[0])] + Lines(ms[1..]) && AllHeard(ms) == [Heard(ms[0])] + AllHeard(ms[1..])
    ensures Typable(ms[0]) && !HasEol(Format(ms[0])) && AllTypable(ms[1..])
  {
  }

  lemma {:induction false} ScanTyped(lines: seq<string>, ms: seq<Outgoing>, eol: string)
    requires AllTypable(ms) && IsTerminator(eol)
    ensures Scan(Frames(lines, ""), Stream(ms, eol)) == Frames(lines + Lines(ms), "")
    decreases |ms|
  {
    if ms == [] {
      assert lines + Lines(ms) == lines;
    } else {
      var line := Format(ms[0]);
      TypedCons(ms);
      TypedLineIsNotEmpty(ms[0]);
      ScanPrintedLine(lines, line, eol);
      ScanAppend(Frames(lines, ""), line + eol, Stream(ms[1..], eol));
      assert Stream(ms, eol) == (line + eol) + Stream(ms[1..], eol);
      ScanTyped(lines + [line], ms[1..], eol);
      ConcatAssoc(lines, [line], Lines(ms[1..]));
    }
  }

  lemma {:induction false} DispatchesOfTyped(ms: seq<Outgoing>)
    requires AllTypable(ms)
    ensures Dispatches(Lines(ms)) == AllHeard(ms)
    decreases |ms|
  {
    if ms != [] {
      TypedCons(ms);
      AnyCaseIsDispatched(ms[0]);
      DispatchesOne(Format(ms[0]));
      DispatchesOfTyped(ms[1..]);
      DispatchesAppend([Format(ms[0])], Lines(ms[1..]));
    }
  }

  /** Lines typed in any case, in chunks that end lines or hold none, reach the handler in upper
      case, in order, with nothing added or left over; with the repaired framer in any chunks. */
  lemma TypedLinesAreHeard(ms: seq<Outgoing>, eol: string, chunks: seq<string>)
    requires AllTypable(ms) && IsTerminator(eol) && Flatten(chunks) == Stream(ms, eol)
    ensures (forall k | 0 <= k < |chunks| :: WholeLines(chunks[k])) ==>
              Dispatches(FeedAll("", chunks).lines) == AllHeard(ms) && FeedAll("", chunks).queue == ""
    ensures Dispatches(FeedTails("", chunks).lines) == AllHeard(ms) && FeedTails("", chunks).queue == ""
  {
    ScanTyped([], ms, eol);
    DispatchesOfTyped(ms);
    assert [] + Lines(ms) == Lines(ms);
    var lines := FeedAll("", chunks).lines;
    if forall k | 0 <= k < |chunks| :: WholeLines(chunks[k]) {
      WholeLinesRun(START, chunks);
      DispatchesIgnoreEmptyLines(lines);
      assert [] + NonEmpty(lines) == NonEmpty(lines);
    }
    RepairedReading(chunks);
    DispatchesIgnoreEmptyLines(FeedTails("", chunks).lines);
  }

  // ----- counting lines

  lemma EolEndsLine(line: string, rest: string)
    requires !HasEol(line)
    ensures FindEol(line + "\r\n" + rest, 0) == |line|
    ensures AfterEol(line + "\r\n" + rest, |line|) == |line| + 2
  {
    var data := line + "\r\n" + rest;
    FindEolAt(data, 0, |line|);
  }

  lemma {:induction false} FindEolAt(data: string, pos: nat, e: nat)
    requires pos <= e < |data| && IsEol(data[e]) && forall i | pos <= i < e :: !IsEol(data[i])
    ensures FindEol(data, pos) == e
    decreases e - pos
  {
    if pos < e {
      FindEolAt(data, pos + 1, e);
    }
  }

  lemma {:induction false} FindEolShift(head: string, data: string, pos: nat)
    requires pos <= |data|
    ensures FindEol(head + data, |head| + pos) == |head| + FindEol(data, pos)
    decreases |data| - pos
  {
    var whole := head + data;
    if pos < |data| {
      assert whole[|head| + pos] == data[pos];
      FindEolShift(head, data, pos + 1);
    }
  }

  lemma AfterEolShift(head: string, data: string, e: nat)
    requires e < |data|
    ensures AfterEol(head + data, |head| + e) == |head| + AfterEol(data, e)
  {
    var whole := head + data;
    assert whole[|head| + e] == data[e];
    assert e + 1 < |data| ==> whole[|head| + e + 1] == data[e + 1];
  }

  /** Framing from a position is framing what follows it, when a line has just ended. */
  lemma {:induction false} FeedShift(head: string, data: string, pos: nat)
    requires pos <= |data|
    ensures Feed("", head + data, |head| + pos).lines == Feed("", data, pos).lines
    decreases |data| - pos
  {
    var whole := head + data;
    FindEolShift(head, data, pos);
    var e := FindEol(data, pos);
    if e < |data| {
      AfterEolShift(head, data, e);
      assert whole[|head| + pos..|head| + e] == data[pos..e];
      var next := AfterEol(data, e);
      if next < |data| {
        FeedShift(head, data, next);
      }
    }
  }

  /** A whole stream read at once is framed into exactly its lines: CR LF ends one line, not two. */
  lemma {:induction false} WholeStreamIsItsLines(ms: seq<Outgoing>)
    requires ms != [] && forall i | 0 <= i < |ms| :: !HasEol(Format(ms[i]))
    ensures Feed("", Stream(ms, "\r\n")).lines == Lines(ms)
    decreases |ms|
  {
    var line, rest := Format(ms[0]), Stream(ms[1..], "\r\n");
    var head := line + "\r\n";
    var data := head + rest;
    assert Stream(ms, "\r\n") == data;
    EolEndsLine(line, rest);
    assert "" + data[0..|line|] == line;
    assert Lines(ms) == [line] + Lines(ms[1..]);
    if ms[1..] != [] {
      assert rest != "";
      WholeStreamIsItsLines(ms[1..]);
      FeedShift(head, rest, 0);
    } else {
      assert rest == "" && Lines(ms[1..]) == [];
    }
  }

  /** Over live objects: a typed stream read at once is dispatched as heard, one message a line. */
  method ReadTyped(input: Input, ms: seq<Outgoing>)
    requires AllTypable(ms) && ms != [] && input.inputQueue == ""
    modifies input
    ensures input.dispatched == old(input.dispatched) + AllHeard(ms)
    ensures input.messageCount == old(input.messageCount) + |ms|
  {
    WholeStreamIsItsLines(ms);
    DispatchesOfTyped(ms);
    input.HandleInput(Stream(ms, "\r\n"));
  }
}
