/** RPL_ISUPPORT as the user protocol sends it: nothing lost, lines within the limit, and what a
    client reads. */
module UserReplies {
  import opened Text
  import opened MessageFormat
  import opened Packing
  import opened Irc2Protocol
  import opened WirePipeline

  const MAX_PARAMS: nat := 15

  /** `maxMessageSize` less what the line is thought to need besides the payload, as an unsigned int. */
  function MaxOutput(maxMessageSize: nat, reserved: nat): nat {
    (maxMessageSize - reserved) % 0x1_0000_0000
  }

  // ----- RPL_ISUPPORT

  function IsupportRule(maxMessageSize: nat, server: string, nick: string, suffix: string): Rule {
    Rule(MaxOutput(maxMessageSize, |suffix| + |nick| + |server| + 10), 0, Some(MAX_PARAMS - 2))
  }

  function IsupportLine(server: string, nick: string, suffix: string, payload: string): Outgoing {
    Outgoing(Some(server), "005", [nick, payload, suffix])
  }

  function IsupportLines(server: string, nick: string, suffix: string, payloads: seq<string>): (ms: seq<Outgoing>)
    ensures |ms| == |payloads| && forall i | 0 <= i < |ms| :: ms[i] == IsupportLine(server, nick, suffix, payloads[i])
  {
    seq(|payloads|, i requires 0 <= i < |payloads| => IsupportLine(server, nick, suffix, payloads[i]))
  }

  method SendISUPPORT(output: Output, server: string, nick: string, suffix: string, info: seq<string>,
                      maxMessageSize: nat)
    modifies output
    ensures var payloads := Pack(IsupportRule(maxMessageSize, server, nick, suffix), info, "", 0);
            output.outputQueue
            == old(output.outputQueue) + Stream(IsupportLines(server, nick, suffix, payloads), output.eolChars)
  {
    var maxOutputLength := MaxOutput(maxMessageSize, |suffix| + |nick| + |server| + 10);
    ghost var rule := IsupportRule(maxMessageSize, server, nick, suffix);
    ghost var all := Pack(rule, info, "", 0);
    ghost var before := output.outputQueue;
    ghost var sent: seq<string> := [];
    var buffer, params := "", 0;
    assert info[0..] == info && before + "" == before;
    for i := 0 to |info|
      invariant sent + Pack(rule, info[i..], buffer, params) == all
      invariant output.outputQueue == before + Stream(IsupportLines(server, nick, suffix, sent), output.eolChars)
    {
      var it := info[i];
      PackStep(rule, sent, info, i, buffer, params);
      params := params + 1;
      if params > MAX_PARAMS - 2 || |buffer| + |it| > maxOutputLength {
        output.SendMessageFrom(server, "005", [nick, buffer, suffix]);
        SentOneMore(before, server, nick, suffix, sent, buffer, output.eolChars);
        sent := sent + [buffer];
        buffer, params := "", 0;
      }
      if buffer != "" {
        buffer := buffer + (" " + it);
      } else {
        buffer := it;
      }
    }
    if buffer != "" {
      output.SendMessageFrom(server, "005", [nick, buffer, suffix]);
      SentOneMore(before, server, nick, suffix, sent, buffer, output.eolChars);
    }
    assert sent + [] == sent;
  }

  lemma PackStep(rule: Rule, sent: seq<string>, items: seq<string>, i: nat, buffer: string, count: nat)
    requires i < |items|
    ensures sent + Pack(rule, items[i..], buffer, count)
            == if MustFlush(rule, |buffer|, count, items[i])
               then (sent + [buffer]) + Pack(rule, items[i + 1..], items[i], 0)
               else sent + Pack(rule, items[i + 1..], Append(buffer, items[i]), count + 1)
  {
    assert items[i..][0] == items[i] && items[i..][1..] == items[i + 1..];
    ConcatAssoc(sent, [buffer], Pack(rule, items[i + 1..], items[i], 0));
  }

  lemma SentOneMore(before: string, server: string, nick: string, suffix: string, sent: seq<string>,
                    payload: string, eol: string)
    ensures before + Stream(IsupportLines(server, nick, suffix, sent + [payload]), eol)
            == before + Stream(IsupportLines(server, nick, suffix, sent), eol)
               + (Format(IsupportLine(server, nick, suffix, payload)) + eol)
  {
    var ms, line := IsupportLines(server, nick, suffix, sent), IsupportLine(server, nick, suffix, payload);
    assert IsupportLines(server, nick, suffix, sent + [payload]) == ms + [line];
    StreamSnoc(ms, line, eol);
    ConcatAssoc(before, Stream(ms, eol), Format(line) + eol);
  }

  lemma IsupportLineLength(server: string, nick: string, suffix: string, payload: string)
    ensures |Format(IsupportLine(server, nick, suffix, payload))| == |server| + |nick| + |payload| + |suffix| + 9
  {
    ParamTextWeight([nick, payload, suffix]);
    assert [nick, payload, suffix][1..] == [payload, suffix] && [payload, suffix][1..] == [suffix];
    assert [suffix][1..] == [];
    assert Weight([suffix]) == |suffix| + 1;
    assert Weight([payload, suffix]) == |payload| + 1 + Weight([suffix]);
  }

  /** When the limit does not underflow, every line before its terminator is within `maxMessageSize`
      iff no token is more than one octet over the limit. */
  lemma IsupportLinesFit(maxMessageSize: nat, server: string, nick: string, suffix: string, info: seq<string>)
    requires |suffix| + |nick| + |server| + 10 <= maxMessageSize < 0x1_0000_0000
    ensures var rule := IsupportRule(maxMessageSize, server, nick, suffix);
            var payloads := Pack(rule, info, "", 0);
            (forall i | 0 <= i < |payloads| ::
               |Format(IsupportLine(server, nick, suffix, payloads[i]))| <= maxMessageSize)
            <==> AllWithin(info, rule.max + 1)
  {
    var rule := IsupportRule(maxMessageSize, server, nick, suffix);
    var payloads := Pack(rule, info, "", 0);
    PayloadLengths(rule, info, "", 0, rule.max + 1);
    forall i | 0 <= i < |payloads|
      ensures |Format(IsupportLine(server, nick, suffix, payloads[i]))| <= maxMessageSize
              <==> |payloads[i]| <= rule.max + 1
    {
      IsupportLineLength(server, nick, suffix, payloads[i]);
    }
  }

  /** A word that can stand as a middle parameter. */
  predicate Middle(word: string) {
    word != "" && SpaceFree(word) && !Colon(word)
  }

  predicate AllMiddle(words: seq<string>) {
    forall i | 0 <= i < |words| :: Middle(words[i])
  }

  /** Read by a client, each line gives the nickname, a run of tokens and the suffix; the runs are
      the whole list in order, at most `MAX_PARAMS - 2` tokens in the first and one more in the others. */
  lemma ClientReadsIsupport(maxMessageSize: nat, server: string, nick: string, suffix: string, info: seq<string>)
    requires SpaceFree(server) && Middle(nick) && !LosesItsSpace(suffix) && AllMiddle(info)
    requires AllFit(IsupportRule(maxMessageSize, server, nick, suffix), info)
    ensures var rule := IsupportRule(maxMessageSize, server, nick, suffix);
            var groups := Groups(rule, info, [], 0);
            var lines := IsupportLines(server, nick, suffix, Pack(rule, info, "", 0));
            && Flatten(groups) == info && |groups| == |lines|
            && SizesWithin(groups, MAX_PARAMS - 2, false)
            && forall i | 0 <= i < |lines| ::
                 Parse(Format(lines[i])) == Some(Message(server, "005", [nick] + groups[i] + [suffix]))
  {
    var rule := IsupportRule(maxMessageSize, server, nick, suffix);
    var groups := Groups(rule, info, [], 0);
    var payloads := Pack(rule, info, "", 0);
    GroupsConserveItems(rule, info, [], 0);
    GroupSizes(rule, info, [], 0, false);
    PayloadsFit(rule, info, [], 0);
    assert [] + info == info;
    forall i | 0 <= i < |groups|
      ensures Parse(Format(IsupportLine(server, nick, suffix, payloads[i])))
              == Some(Message(server, "005", [nick] + groups[i] + [suffix]))
    {
      assert GoodLength(rule, groups[i]);
      GroupIsPart(groups, i, info);
      ClientReadsLine(server, nick, suffix, groups[i]);
    }
  }

  lemma {:induction false} GroupIsPart(groups: seq<seq<string>>, i: nat, items: seq<string>)
    requires i < |groups| && Flatten(groups) == items && AllMiddle(items)
    ensures AllMiddle(groups[i])
    decreases |groups|
  {
    var rest := Flatten(groups[1..]);
    if i == 0 {
      assert forall k | 0 <= k < |groups[0]| :: groups[0][k] == items[k];
    } else {
      assert forall k | 0 <= k < |rest| :: rest[k] == items[|groups[0]| + k];
      GroupIsPart(groups[1..], i - 1, rest);
    }
  }

  lemma SpreadPrintsAlike(nick: string, suffix: string, group: seq<string>)
    requires nick != "" && group != [] && AllNonEmpty(group)
    ensures ParamText([nick, Joined(group), suffix]) == ParamText([nick] + group + [suffix])
  {
    JoinedNonEmpty(group);
    JoinedPair(nick, group);
    JoinedPrintsAsItems([nick] + group, [suffix]);
    JoinedPrintsAsItems([nick, Joined(group)], [suffix]);
    assert [nick, Joined(group)] + [suffix] == [nick, Joined(group), suffix];
  }

  lemma SpreadIsGood(nick: string, suffix: string, group: seq<string>)
    requires Middle(nick) && !LosesItsSpace(suffix) && AllMiddle(group)
    ensures GoodParams([nick] + group + [suffix])
  {
    var params := [nick] + group + [suffix];
    forall i | 0 <= i < |params| - 1 ensures SpaceFree(params[i]) && !Colon(params[i]) {
      assert params[i] == if i == 0 then nick else group[i - 1];
    }
  }

  lemma NumericIsGood(server: string, params: seq<string>)
    requires SpaceFree(server) && GoodParams(params)
    ensures WellFormed(Outgoing(Some(server), "005", params))
  {
    assert ToUpper("005") == "005";
    assert SpaceFree("005");
  }

  lemma ClientReadsLine(server: string, nick: string, suffix: string, group: seq<string>)
    requires SpaceFree(server) && Middle(nick) && !LosesItsSpace(suffix)
    requires group != [] && AllMiddle(group)
    ensures Parse(Format(IsupportLine(server, nick, suffix, Joined(group))))
            == Some(Message(server, "005", [nick] + group + [suffix]))
  {
    var params := [nick] + group + [suffix];
    SpreadPrintsAlike(nick, suffix, group);
    SpreadIsGood(nick, suffix, group);
    NumericIsGood(server, params);
    ParserUndoesPrinter(Outgoing(Some(server), "005", params));
  }

  lemma {:induction false} JoinedPair(first: string, group: seq<string>)
    requires first != "" && group != [] && AllNonEmpty(group)
    ensures Joined([first, Joined(group)]) == Joined([first] + group)
    decreases |group|
  {
    var last, front := group[|group| - 1], group[..|group| - 1];
    assert group == front + [last];
    JoinedOne(first);
    JoinedSnoc([first], Joined(group));
    assert [first] + [Joined(group)] == [first, Joined(group)];
    if front == [] {
      assert group == [last];
      JoinedOne(last);
    } else {
      JoinedNonEmpty(front);
      JoinedPair(first, front);
      JoinedSnoc([first], Joined(front));
      assert [first] + [Joined(front)] == [first, Joined(front)];
      JoinedSnoc(front, last);
      ConcatAssoc([first], front, [last]);
      JoinedSnoc([first] + front, last);
      var f := Joined(front);
      ConcatAssoc(" ", f, " " + last);
      ConcatAssoc(first, " " + f, " " + last);
    }
  }
}
