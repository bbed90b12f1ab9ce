/** Printer, output queue, framer and parser composed: what arrives when messages are sent
    through arbitrary blocks. */
module WirePipeline {
  import opened Text
  import opened Tokens
  import opened Framing
  import opened FramingRuns
  import opened MessageFormat
  import opened Irc2Protocol

  /** A message that survives its own line and fits on one. */
  predicate Sendable(m: Outgoing) {
    WellFormed(m) && !HasEol(Format(m))
  }

  predicate AllSendable(ms: seq<Outgoing>) {
    forall i | 0 <= i < |ms| :: Sendable(ms[i])
  }

  predicate IsTerminator(eol: string) {
    eol != "" && forall i | 0 <= i < |eol| :: IsEol(eol[i])
  }

  function Lines(ms: seq<Outgoing>): (r: seq<string>)
    ensures |r| == |ms| && forall i | 0 <= i < |ms| :: r[i] == Format(ms[i])
  {
    seq(|ms|, i requires 0 <= i < |ms| => Format(ms[i]))
  }

  function Meants(ms: seq<Outgoing>): (r: seq<Message>)
    ensures |r| == |ms| && forall i | 0 <= i < |ms| :: r[i] == Meant(ms[i])
  {
    seq(|ms|, i requires 0 <= i < |ms| => Meant(ms[i]))
  }

  /** The octets queued by sending `ms` in order. */
  function Stream(ms: seq<Outgoing>, eol: string): string {
    if ms == [] then "" else (Format(ms[0]) + eol) + Stream(ms[1..], eol)
  }

  lemma {:induction false} StreamSnoc(ms: seq<Outgoing>, m: Outgoing, eol: string)
    ensures Stream(ms + [m], eol) == Stream(ms, eol) + (Format(m) + eol)
  {
    if ms == [] {
      assert ([] + [m])[1..] == [];
      assert [] + [m] == [m];
    } else {
      StreamSnoc(ms[1..], m, eol);
      assert (ms + [m])[0] == ms[0] && (ms + [m])[1..] == ms[1..] + [m];
      ConcatAssoc(Format(ms[0]) + eol, Stream(ms[1..], eol), Format(m) + eol);
    }
  }

  // ----- the reference reading of a printed stream

  lemma {:induction false} ScanTerminators(lines: seq<string>, eol: string)
    requires forall i | 0 <= i < |eol| :: IsEol(eol[i])
    ensures Scan(Frames(lines, ""), eol) == Frames(lines, "")
    decreases |eol|
  {
    if eol != "" {
      NonEmptyOne("");
      assert lines + [] == lines;
      ScanTerminators(lines, eol[1..]);
    }
  }

  lemma ScanPrintedLine(lines: seq<string>, line: string, eol: string)
    requires line != "" && !HasEol(line) && IsTerminator(eol)
    ensures Scan(Frames(lines, ""), line + eol) == Frames(lines + [line], "")
  {
    ScanAppend(Frames(lines, ""), line, eol);
    ScanText(Frames(lines, ""), line);
    assert "" + line == line;
    NonEmptyOne(line);
    ScanTerminators(lines + [line], eol[1..]);
  }

  lemma FormatIsNotEmpty(m: Outgoing)
    requires WellFormed(m)
    ensures Format(m) != ""
  {
  }

  lemma {:induction false} ScanStream(lines: seq<string>, ms: seq<Outgoing>, eol: string)
    requires AllSendable(ms) && IsTerminator(eol)
    ensures Scan(Frames(lines, ""), Stream(ms, eol)) == Frames(lines + Lines(ms), "")
    decreases |ms|
  {
    if ms == [] {
      assert lines + Lines(ms) == lines;
    } else {
      var line := Format(ms[0]);
      LinesCons(ms);
      FormatIsNotEmpty(ms[0]);
      ScanPrintedLine(lines, line, eol);
      ScanAppend(Frames(lines, ""), line + eol, Stream(ms[1..], eol));
      assert Stream(ms, eol) == (line + eol) + Stream(ms[1..], eol);
      ScanStream(lines + [line], ms[1..], eol);
      ConcatAssoc(lines, [line], Lines(ms[1..]));
    }
  }

  lemma DispatchesOfLine(m: Outgoing)
    requires Sendable(m)
    ensures Dispatches([Format(m)]) == [Meant(m)]
  {
    ParserUndoesPrinter(m);
    DispatchesOne(Format(m));
  }

  lemma LinesCons(ms: seq<Outgoing>)
    requires ms != []
    ensures Lines(ms) == [Format(ms[0])] + Lines(ms[1..])
    ensures Meants(ms) == [Meant(ms[0])] + Meants(ms[1..])
    ensures AllSendable(ms) ==> Sendable(ms[0]) && AllSendable(ms[1..])
  {
  }

  lemma {:induction false} DispatchesOfLines(ms: seq<Outgoing>)
    requires AllSendable(ms)
    ensures Dispatches(Lines(ms)) == Meants(ms)
    decreases |ms|
  {
    if ms != [] {
      LinesCons(ms);
      DispatchesOfLine(ms[0]);
      DispatchesOfLines(ms[1..]);
      DispatchesAppend([Format(ms[0])], Lines(ms[1..]));
    }
  }

  // ----- a tainted line cannot pass for a sent message

  predicate AnyEol(params: seq<string>) {
    exists i | 0 <= i < |params| :: HasEol(params[i])
  }

  predicate MessageHasEol(m: Message) {
    HasEol(m.origin) || HasEol(m.command) || AnyEol(m.params)
  }

  lemma TokenSplitsEol(s: string)
    ensures HasEol(s) ==> HasEol(Token(s, ' ')) || HasEol(AfterToken(s, ' '))
  {
    var n := TokenLength(s, ' ');
    if n < |s| {
      assert s == (s[..n] + [' ']) + s[n + 1..];
      HasEolAppend(s[..n] + [' '], s[n + 1..]);
      HasEolAppend(s[..n], [' ']);
    } else {
      assert s[..n] == s;
    }
  }

  lemma UpperKeepsEol(s: string)
    ensures HasEol(s) ==> HasEol(ToUpper(s))
  {
    if i :| 0 <= i < |s| && IsEol(s[i]) {
      assert ToUpper(s)[i] == s[i];
    }
  }

  lemma HasEolTail(s: string)
    requires s != "" && !IsEol(s[0])
    ensures HasEol(s) ==> HasEol(s[1..])
  {
    assert s == [s[0]] + s[1..];
    HasEolAppend([s[0]], s[1..]);
  }

  lemma LastShowsEol(word: string, more: string)
    requires Colon(word) && (HasEol(word) || HasEol(more))
    ensures HasEol(if more != "" then word[1..] + " " + more else word[1..])
  {
    HasEolTail(word);
    HasEolAppend(word[1..] + " ", more);
    HasEolAppend(word[1..], " ");
  }

  lemma AnyEolCons(word: string, tail: seq<string>)
    ensures AnyEol([word] + tail) <==> HasEol(word) || AnyEol(tail)
  {
    var all := [word] + tail;
    assert all[0] == word;
    assert forall i | 0 <= i < |tail| :: all[i + 1] == tail[i];
    if i :| 0 < i < |all| && HasEol(all[i]) {
      assert HasEol(tail[i - 1]);
    }
  }

  lemma {:induction false} ParamsShowEol(rest: string)
    requires HasEol(rest)
    ensures AnyEol(ParseParams(rest))
    decreases |rest|
  {
    var word, more := Token(rest, ' '), AfterToken(rest, ' ');
    TokenSplitsEol(rest);
    if Colon(word) {
      LastShowsEol(word, more);
      AnyEolCons(ParseParams(rest)[0], []);
    } else {
      if HasEol(more) {
        ParamsShowEol(more);
      }
      AnyEolCons(word, ParseParams(more));
    }
  }

  lemma TaintShows(line: string)
    requires HasEol(line) && Parse(line).Some?
    ensures MessageHasEol(Parse(line).value)
  {
    var text := if Colon(line) then AfterToken(line, ' ') else line;
    TokenSplitsEol(line);
    if Colon(line) {
      HasEolTail(Token(line, ' '));
    }
    if HasEol(text) {
      TokenSplitsEol(text);
      UpperKeepsEol(Token(text, ' '));
      if HasEol(AfterToken(text, ' ')) {
        ParamsShowEol(AfterToken(text, ' '));
      }
    }
  }

  lemma {:induction false} ParamTextShowsEol(params: seq<string>, i: nat)
    requires i < |params| && HasEol(params[i])
    ensures HasEol(ParamText(params))
    decreases |params|
  {
    if |params| == 1 {
      HasEolAppend(":", params[0]);
      HasEolAppend(" ", ":" + params[0]);
    } else {
      var tail := ParamText(params[1..]);
      HasEolAppend(params[0], tail);
      HasEolAppend(" ", params[0] + tail);
      if i > 0 {
        ParamTextShowsEol(params[1..], i - 1);
      }
    }
  }

  lemma SendableMessageHasNoEol(m: Outgoing)
    requires Sendable(m)
    ensures !MessageHasEol(Meant(m))
  {
    var lead := if m.origin.Some? then ":" + m.origin.value + " " else "";
    HasEolAppend(lead + m.command, ParamText(m.params));
    HasEolAppend(lead, m.command);
    if m.origin.Some? {
      HasEolAppend(":" + m.origin.value, " ");
      HasEolAppend(":", m.origin.value);
    }
    if i :| 0 <= i < |m.params| && HasEol(m.params[i]) {
      ParamTextShowsEol(m.params, i);
    }
  }

  lemma {:induction false} FullDispatch(lines: seq<string>)
    ensures |Dispatches(lines)| <= |lines|
    ensures |Dispatches(lines)| == |lines| ==>
              forall i | 0 <= i < |lines| :: Parse(lines[i]) == Some(Dispatches(lines)[i])
    decreases |lines|
  {
    if lines != [] {
      FullDispatch(lines[1..]);
      assert forall i | 0 < i < |lines| :: lines[i] == lines[1..][i - 1];
    }
  }

  // ----- the main theorem

  /** End to end, exactly: sendable messages cut into any chunks dispatch as sent, in order and
      with no extras, iff no chunk carries text after its last terminator. */
  lemma EndToEnd(ms: seq<Outgoing>, eol: string, chunks: seq<string>)
    requires AllSendable(ms) && IsTerminator(eol)
    requires Flatten(chunks) == Stream(ms, eol)
    ensures Dispatches(FeedAll("", chunks).lines) == Meants(ms)
            <==> forall k | 0 <= k < |chunks| :: WholeLines(chunks[k])
    ensures (forall k | 0 <= k < |chunks| :: WholeLines(chunks[k])) ==> FeedAll("", chunks).queue == ""
  {
    var lines := FeedAll("", chunks).lines;
    var code := Read(START, chunks);
    ScanStream([], ms, eol);
    DispatchesOfLines(ms);
    DispatchesIgnoreEmptyLines(lines);
    assert [] + Lines(ms) == Lines(ms) && [] + NonEmpty(lines) == NonEmpty(lines);
    if forall k | 0 <= k < |chunks| :: WholeLines(chunks[k]) {
      WholeLinesRun(START, chunks);
    } else {
      RunKeepsRelation(START, START, chunks);
      var bad :| 0 <= bad < |code.lines| && HasEol(code.lines[bad]);
      TaintedRunDispatchesDifferently(ms, code.lines, bad);
    }
  }

  lemma TaintedRunDispatchesDifferently(ms: seq<Outgoing>, lines: seq<string>, bad: nat)
    requires AllSendable(ms) && |lines| == |ms|
    requires bad < |lines| && HasEol(lines[bad])
    ensures Dispatches(lines) != Meants(ms)
  {
    if Dispatches(lines) == Meants(ms) {
      FullDispatch(lines);
      TaintShows(lines[bad]);
      SendableMessageHasNoEol(ms[bad]);
    }
  }

  // ----- blocks taken from the output queue

  datatype Drained = Drained(blocks: seq<string>, left: string)

  /** The blocks that withdrawing these amounts hands out, and what stays queued. */
  function Withdraw(queue: string, amounts: seq<nat>): Drained
    decreases |amounts|
  {
    if amounts == [] then Drained([], queue)
    else
      var n := Min(amounts[0], |queue|);
      var rest := Withdraw(queue[n..], amounts[1..]);
      Drained([queue[..n]] + rest.blocks, rest.left)
  }

  lemma {:induction false} WithdrawConserves(queue: string, amounts: seq<nat>)
    ensures Flatten(Withdraw(queue, amounts).blocks) + Withdraw(queue, amounts).left == queue
    decreases |amounts|
  {
    if amounts != [] {
      var n := Min(amounts[0], |queue|);
      WithdrawConserves(queue[n..], amounts[1..]);
      var rest := Withdraw(queue[n..], amounts[1..]);
      assert ([queue[..n]] + rest.blocks)[1..] == rest.blocks;
      ConcatAssoc(queue[..n], Flatten(rest.blocks), rest.left);
      assert queue[..n] + queue[n..] == queue;
    }
  }

  lemma {:induction false} WithdrawSnoc(queue: string, amounts: seq<nat>, amount: nat)
    ensures var before := Withdraw(queue, amounts);
            var n := Min(amount, |before.left|);
            Withdraw(queue, amounts + [amount]) == Drained(before.blocks + [before.left[..n]], before.left[n..])
    decreases |amounts|
  {
    if amounts == [] {
      assert [] + [amount] == [amount] && [amount][1..] == [];
    } else {
      var n := Min(amounts[0], |queue|);
      WithdrawSnoc(queue[n..], amounts[1..], amount);
      assert (amounts + [amount])[0] == amounts[0] && (amounts + [amount])[1..] == amounts[1..] + [amount];
      var rest := Withdraw(queue[n..], amounts[1..]);
      ConcatAssoc([queue[..n]], rest.blocks, [rest.left[..Min(amount, |rest.left|)]]);
    }
  }

  lemma {:induction false} FeedAllSnoc(queue: string, chunks: seq<string>, chunk: string)
    ensures var before := FeedAll(queue, chunks);
            var last := Feed(before.queue, chunk);
            FeedAll(queue, chunks + [chunk]) == Frames(before.lines + last.lines, last.queue)
    decreases |chunks|
  {
    if chunks == [] {
      assert [] + [chunk] == [chunk] && [chunk][1..] == [];
      var last := Feed(queue, chunk);
      assert last.lines + [] == last.lines && [] + last.lines == last.lines;
    } else {
      var first := Feed(queue, chunks[0]);
      FeedAllSnoc(first.queue, chunks[1..], chunk);
      assert (chunks + [chunk])[0] == chunks[0] && (chunks + [chunk])[1..] == chunks[1..] + [chunk];
      var rest := FeedAll(first.queue, chunks[1..]);
      ConcatAssoc(first.lines, rest.lines, Feed(rest.queue, chunk).lines);
    }
  }

  /** Daemon rounds: every withdrawn block becomes one read at the other end. */
  method Relay(sender: Output, receiver: Input, amounts: seq<nat>)
    modifies sender`outputQueue, receiver
    ensures sender.outputQueue == Withdraw(old(sender.outputQueue), amounts).left
    ensures receiver.inputQueue
            == FeedAll(old(receiver.inputQueue), Withdraw(old(sender.outputQueue), amounts).blocks).queue
    ensures receiver.dispatched == old(receiver.dispatched)
            + Dispatches(FeedAll(old(receiver.inputQueue), Withdraw(old(sender.outputQueue), amounts).blocks).lines)
  {
    ghost var stream, start := sender.outputQueue, receiver.inputQueue;
    assert amounts[..0] == [];
    for i := 0 to |amounts|
      invariant sender.outputQueue == Withdraw(stream, amounts[..i]).left
      invariant receiver.inputQueue == FeedAll(start, Withdraw(stream, amounts[..i]).blocks).queue
      invariant receiver.dispatched == old(receiver.dispatched)
                + Dispatches(FeedAll(start, Withdraw(stream, amounts[..i]).blocks).lines)
    {
      ghost var drained := Withdraw(stream, amounts[..i]);
      ghost var sofar := FeedAll(start, drained.blocks);
      ghost var n := Min(amounts[i], |drained.left|);
      WithdrawSnoc(stream, amounts[..i], amounts[i]);
      FeedAllSnoc(start, drained.blocks, drained.left[..n]);
      DispatchesAppend(sofar.lines, Feed(sofar.queue, drained.left[..n]).lines);
      ConcatAssoc(old(receiver.dispatched), Dispatches(sofar.lines),
                  Dispatches(Feed(sofar.queue, drained.left[..n]).lines));
      assert amounts[..i + 1] == amounts[..i] + [amounts[i]];
      var block := sender.WithdrawOutput(amounts[i]);
      SamePrefix(block, sender.outputQueue, drained.left, n);
      receiver.HandleInput(block);
    }
    assert amounts[..|amounts|] == amounts;
  }

  lemma SamePrefix(block: string, rest: string, queue: string, n: nat)
    requires block + rest == queue && |block| == n
    ensures n <= |queue| && block == queue[..n] && rest == queue[n..]
  {
    assert (block + rest)[..n] == block && (block + rest)[n..] == rest;
  }

  method SendAll(sender: Output, ms: seq<Outgoing>)
    requires forall i | 0 <= i < |ms| :: |ms[i].params| <= 9
    modifies sender
    ensures sender.outputQueue == old(sender.outputQueue) + Stream(ms, sender.eolChars)
    ensures sender.messageCount == old(sender.messageCount) + |ms|
  {
    ghost var before := sender.outputQueue;
    assert ms[..0] == [] && before + "" == before;
    for i := 0 to |ms|
      invariant sender.outputQueue == before + Stream(ms[..i], sender.eolChars)
      invariant sender.messageCount == old(sender.messageCount) + i
    {
      StreamSnoc(ms[..i], ms[i], sender.eolChars);
      ConcatAssoc(before, Stream(ms[..i], sender.eolChars), Format(ms[i]) + sender.eolChars);
      assert ms[..i + 1] == ms[..i] + [ms[i]];
      match ms[i].origin
      case None => sender.SendMessage(ms[i].command, ms[i].params);
      case Some(origin) => sender.SendMessageFrom(origin, ms[i].command, ms[i].params);
    }
    assert ms[..|ms|] == ms;
  }

  /** `EndToEnd` for the blocks a draining sequence of withdrawals hands out. */
  lemma EndToEndByWithdrawal(ms: seq<Outgoing>, amounts: seq<nat>)
    requires AllSendable(ms) && Withdraw(Stream(ms, EOL_CR_LF), amounts).left == ""
    ensures var blocks := Withdraw(Stream(ms, EOL_CR_LF), amounts).blocks;
            Dispatches(FeedAll("", blocks).lines) == Meants(ms)
            <==> forall k | 0 <= k < |blocks| :: WholeLines(blocks[k])
  {
    var blocks := Withdraw(Stream(ms, EOL_CR_LF), amounts).blocks;
    WithdrawConserves(Stream(ms, EOL_CR_LF), amounts);
    assert Flatten(blocks) + "" == Flatten(blocks);
    EndToEnd(ms, EOL_CR_LF, blocks);
  }

  /** A whole session over real protocol objects: print and queue `ms`, then drain in blocks. */
  method Session(ms: seq<Outgoing>, amounts: seq<nat>) returns (dispatched: seq<Message>)
    requires AllSendable(ms) && forall i | 0 <= i < |ms| :: |ms[i].params| <= 9
    requires Withdraw(Stream(ms, EOL_CR_LF), amounts).left == ""
    ensures dispatched == Meants(ms)
            <==> var blocks := Withdraw(Stream(ms, EOL_CR_LF), amounts).blocks;
                 forall k | 0 <= k < |blocks| :: WholeLines(blocks[k])
  {
    var sender := new Output(EOL_CR_LF);
    var receiver := new Input("");
    SendAll(sender, ms);
    assert "" + Stream(ms, EOL_CR_LF) == Stream(ms, EOL_CR_LF);
    Relay(sender, receiver, amounts);
    dispatched := receiver.dispatched;
    ghost var arrived := Dispatches(FeedAll("", Withdraw(Stream(ms, EOL_CR_LF), amounts).blocks).lines);
    assert [] + arrived == arrived;
    EndToEndByWithdrawal(ms, amounts);
  }
}
