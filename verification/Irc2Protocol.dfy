/** The stateful halves of an IRC-2 protocol object: `Input` (`LibCLBP::Input` with the
    `LibIRC2::Input` line parser plugged in) and `Output` (`LibCLBP::Output` with the
    `LibIRC2::Output` printer). */
module Irc2Protocol {
  import opened Text
  import opened Tokens
  import opened Framing
  import opened MessageFormat

  const EOL_CR_LF := "\r\n"

  /** What `parseMessage` is called with when these lines are parsed in order. */
  function Dispatches(lines: seq<string>): seq<Message> {
    if lines == [] then []
    else
      var parsed := Parse(lines[0]);
      (if parsed.Some? then [parsed.value] else []) + Dispatches(lines[1..])
  }

  lemma {:induction false} DispatchesAppend(a: seq<string>, b: seq<string>)
    ensures Dispatches(a + b) == Dispatches(a) + Dispatches(b)
  {
    if a == [] {
      assert a + b == b;
    } else {
      DispatchesAppend(a[1..], b);
      assert (a + b)[0] == a[0] && (a + b)[1..] == a[1..] + b;
      var head := if Parse(a[0]).Some? then [Parse(a[0]).value] else [];
      ConcatAssoc(head, Dispatches(a[1..]), Dispatches(b));
    }
  }

  lemma DispatchesOne(line: string)
    ensures Dispatches([line]) == if Parse(line).Some? then [Parse(line).value] else []
  {
    assert Dispatches([line][1..]) == [];
  }

  lemma DispatchesGrow(done: seq<string>, line: string, before: seq<Message>)
    ensures before + Dispatches(done) + Dispatches([line]) == before + Dispatches(done + [line])
  {
    DispatchesAppend(done, [line]);
    ConcatAssoc(before, Dispatches(done), Dispatches([line]));
  }

  class Input {
    var inputQueue: string
    var messageCount: nat
    /** Every call of the virtual `parseMessage`, in order. */
    var dispatched: seq<Message>

    constructor (queue: string)
      ensures inputQueue == queue && messageCount == 0 && dispatched == []
    {
      inputQueue, messageCount, dispatched := queue, 0, [];
    }

    method ParseLine(line: string)
      modifies this
      ensures messageCount == old(messageCount) + 1
      ensures dispatched == old(dispatched) + Dispatches([line])
      ensures inputQueue == old(inputQueue)
    {
      var message := new StringTokens(line);
      var origin := "";
      messageCount := messageCount + 1;
      if Colon(line) {
        var lead := message.NextToken(' ');
        assert lead[0] == line[0];
        origin := lead[1..];
      }
      var command := message.NextToken(' ');
      command := ToUpper(command);
      var params := GrabParameters(message);
      DispatchesOne(line);
      if command != "" {
        dispatched := dispatched + [Message(origin, command, params)];
      }
    }

    /** The parameter loop of `parseLine`. */
    method GrabParameters(message: StringTokens) returns (params: seq<string>)
      modifies message
      ensures params == ParseParams(old(message.remainder))
    {
      params := [];
      var more := message.HasMoreTokens();
      while more
        invariant more <==> message.remainder != ""
        invariant params + ParseParams(message.remainder) == ParseParams(old(message.remainder))
        decreases |message.remainder|
      {
        ParseStep(params, message.remainder);
        var thingy := message.NextToken(' ');
        more := message.HasMoreTokens();
        if Colon(thingy) {
          if more {
            var rest := message.Rest();
            thingy := thingy[1..] + " " + rest;
          } else {
            thingy := thingy[1..];
          }
          return params + [thingy];
        }
        params := params + [thingy];
      }
    }

    /** Hand one finished line to the parser, in front of it whatever was queued. */
    method DeliverLine(line: string)
      modifies this
      ensures inputQueue == ""
      ensures messageCount == old(messageCount) + 1
      ensures dispatched == old(dispatched) + Dispatches([old(inputQueue) + line])
    {
      if inputQueue == "" {
        assert inputQueue + line == line;
        ParseLine(line);
      } else {
        ParseLine(inputQueue + line);
        inputQueue := "";
      }
    }

    method HandleInput(data: string)
      modifies this
      ensures inputQueue == Feed(old(inputQueue), data).queue
      ensures messageCount == old(messageCount) + |Feed(old(inputQueue), data).lines|
      ensures dispatched == old(dispatched) + Dispatches(Feed(old(inputQueue), data).lines)
    {
      var pos := 0;
      ghost var all := Feed(inputQueue, data);
      ghost var done: seq<string> := [];
      while true
        invariant pos <= |data|
        invariant done + Feed(inputQueue, data, pos).lines == all.lines
        invariant Feed(inputQueue, data, pos).queue == all.queue
        invariant messageCount == old(messageCount) + |done|
        invariant dispatched == old(dispatched) + Dispatches(done)
        decreases |data| - pos
      {
        var eolPos := FindEol(data, pos);
        if eolPos == |data| {
          assert done + [] == done;
          inputQueue := inputQueue + data;
          return;
        }
        ghost var line := inputQueue + data[pos..eolPos];
        FeedAdvance(done, inputQueue, data, pos);
        DeliverLine(data[pos..eolPos]);
        DispatchesGrow(done, line, old(dispatched));
        done := done + [line];
        pos := AfterEol(data, eolPos);
        if pos >= |data| {
          return;
        }
      }
    }
  }

  /** Empty lines are parsed but never dispatched. */
  lemma {:induction false} DispatchesIgnoreEmptyLines(lines: seq<string>)
    ensures Dispatches(NonEmpty(lines)) == Dispatches(lines)
  {
    if lines != [] {
      DispatchesIgnoreEmptyLines(lines[1..]);
      if lines[0] == "" {
        assert Token("", ' ') == "" && ToUpper("") == "";
        assert Parse("") == None;
        assert Dispatches(lines) == [] + Dispatches(lines[1..]);
        assert NonEmpty(lines) == [] + NonEmpty(lines[1..]) == NonEmpty(lines[1..]);
      } else {
        assert ([lines[0]] + NonEmpty(lines[1..]))[1..] == NonEmpty(lines[1..]);
      }
    }
  }

  class Output {
    var outputQueue: string
    var messageCount: nat
    const eolChars: string

    constructor (eol: string)
      ensures outputQueue == "" && messageCount == 0 && eolChars == eol
    {
      outputQueue, messageCount, eolChars := "", 0, eol;
    }

    /** The hand-over constructor: the queue moves, the sent-message counter restarts. */
    constructor Migrate(queue: string, eol: string)
      ensures outputQueue == queue && messageCount == 0 && eolChars == eol
    {
      outputQueue, messageCount, eolChars := queue, 0, eol;
    }

    method OutputRaw(message: string)
      modifies this`outputQueue
      ensures outputQueue == old(outputQueue) + message
    {
      outputQueue := outputQueue + message;
    }

    method OutputLine(message: string)
      modifies this`outputQueue
      ensures outputQueue == old(outputQueue) + (message + eolChars)
    {
      OutputRaw(message);
      OutputRaw(eolChars);
    }

    method SendRawLine(input: string)
      modifies this
      ensures outputQueue == old(outputQueue) + (input + eolChars)
      ensures messageCount == old(messageCount) + 1
    {
      OutputLine(input);
      messageCount := messageCount + 1;
    }

    /** `sendMessage` with no parameters up to nine: the overloads share this shape. */
    method SendMessage(command: string, params: seq<string>)
      requires |params| <= 9
      modifies this
      ensures outputQueue == old(outputQueue) + (Format(Outgoing(None, command, params)) + eolChars)
      ensures messageCount == old(messageCount) + 1
    {
      var output := command + ParamText(params);
      assert "" + command + ParamText(params) == output;
      SendRawLine(output);
    }

    method SendMessageFrom(origin: string, command: string, params: seq<string>)
      requires |params| <= 9
      modifies this
      ensures outputQueue == old(outputQueue) + (Format(Outgoing(Some(origin), command, params)) + eolChars)
      ensures messageCount == old(messageCount) + 1
    {
      var output := ":" + origin + " " + command + ParamText(params);
      SendRawLine(output);
    }

    method WithdrawOutput(amount: nat) returns (output: string)
      modifies this`outputQueue
      ensures output + outputQueue == old(outputQueue)
      ensures |output| == Min(amount, |old(outputQueue)|)
    {
      var length := Min(amount, |outputQueue|);
      output := outputQueue[..length];
      if amount <= |outputQueue| {
        outputQueue := outputQueue[length..];
      } else {
        outputQueue := "";
      }
    }

    method MoreOutput() returns (more: bool)
      ensures more <==> outputQueue != ""
    {
      more := outputQueue != "";
    }
  }
}
