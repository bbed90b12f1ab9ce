/** RPL_NAMREPLY as the user protocol sends it for one channel. */
module ChannelNames {
  import opened Text
  import opened MessageFormat
  import opened Packing
  import opened Irc2Protocol
  import opened WirePipeline
  import opened UserReplies

  /** A channel member as the asking user sees it. */
  datatype Member = Member(nick: string, hidden: bool)

  /** What decides visibility besides the members themselves. */
  datatype View = View(isOperator: bool, isStaff: bool, onChannel: bool, channelHidden: bool)

  predicate CanSee(view: View, member: Member) {
    view.isOperator || view.isStaff || view.onChannel || (!view.channelHidden && !member.hidden)
  }

  function Visible(members: seq<Member>, view: View): seq<string>
    decreases |members|
  {
    if members == [] then []
    else (if CanSee(view, members[0]) then [members[0].nick] else []) + Visible(members[1..], view)
  }

  lemma {:induction false} VisibleAppend(a: seq<Member>, b: seq<Member>, view: View)
    ensures Visible(a + b, view) == Visible(a, view) + Visible(b, view)
    decreases |a|
  {
    if a == [] {
      assert a + b == b;
    } else {
      assert (a + b)[0] == a[0] && (a + b)[1..] == a[1..] + b;
      VisibleAppend(a[1..], b, view);
    }
  }

  /** Each member is listed in its place or left out: operators, staff and those on the channel see
      everyone, others see the members not hidden from them unless the channel is. */
  lemma VisibleExactly(before: seq<Member>, member: Member, rest: seq<Member>, view: View)
    ensures var all, others := Visible(before + [member] + rest, view), Visible(before, view);
            all == if view.isOperator || view.isStaff || view.onChannel || !(view.channelHidden || member.hidden)
                   then others + [member.nick] + Visible(rest, view)
                   else others + Visible(rest, view)
  {
    VisibleAppend(before + [member], rest, view);
    VisibleAppend(before, [member], view);
    assert [member][1..] == [];
    assert Visible([member], view) == if CanSee(view, member) then [member.nick] else [];
  }

  /** `@` for a secret channel, `*` for a private one, `=` for any other. */
  function VisibilityChar(secret: bool, isPrivate: bool): char {
    if secret then '@' else if isPrivate then '*' else '='
  }

  function NamesRule(maxMessageSize: nat, server: string, nick: string): Rule {
    Rule(MaxOutput(maxMessageSize, |nick| + |server| + 15), 2, None)
  }

  function NamesLine(server: string, nick: string, visibility: char, channel: string, payload: string): Outgoing {
    Outgoing(Some(server), "353", [nick, [visibility], channel, payload])
  }

  function NamesLines(server: string, nick: string, visibility: char, channel: string,
                      payloads: seq<string>): (ms: seq<Outgoing>)
    ensures |ms| == |payloads|
    ensures forall i | 0 <= i < |ms| :: ms[i] == NamesLine(server, nick, visibility, channel, payloads[i])
  {
    seq(|payloads|, i requires 0 <= i < |payloads| => NamesLine(server, nick, visibility, channel, payloads[i]))
  }

  /** `sendNumeric` for one reply, behind those sent before. */
  method SendReply(output: Output, server: string, nick: string, visibility: char, channel: string, reply: string,
                   ghost before: string, ghost sent: seq<string>)
    requires output.outputQueue == before + Stream(NamesLines(server, nick, visibility, channel, sent), output.eolChars)
    modifies output
    ensures output.outputQueue
            == before + Stream(NamesLines(server, nick, visibility, channel, sent + [reply]), output.eolChars)
  {
    output.SendMessageFrom(server, "353", [nick, [visibility], channel, reply]);
    SentOneMoreName(before, server, nick, visibility, channel, sent, reply, output.eolChars);
  }

  /** A visible nickname: the buffer is sent first if there is no room for it. */
  method AddName(output: Output, server: string, nick: string, visibility: char, channel: string, reply: string,
                 name: string, maxOutputLength: nat, ghost before: string, ghost sent: seq<string>)
    returns (newReply: string, ghost newSent: seq<string>)
    requires output.outputQueue == before + Stream(NamesLines(server, nick, visibility, channel, sent), output.eolChars)
    modifies output
    ensures var full := |reply| + |name| + 2 > maxOutputLength;
            && newReply == (if full then name else Append(reply, name))
            && newSent == if full then sent + [reply] else sent
    ensures output.outputQueue
            == before + Stream(NamesLines(server, nick, visibility, channel, newSent), output.eolChars)
  {
    newReply, newSent := reply, sent;
    if |newReply| + |name| + 2 > maxOutputLength {
      SendReply(output, server, nick, visibility, channel, newReply, before, sent);
      newSent := sent + [newReply];
      newReply := "";
    }
    if newReply != "" {
      newReply := newReply + (" " + name);
    } else {
      newReply := name;
    }
  }

  /** The member loop, once the channel's sign is known. */
  method SendMembers(output: Output, server: string, nick: string, visibility: char, channel: string,
                     members: seq<Member>, view: View, maxMessageSize: nat)
    modifies output
    ensures var payloads := Pack(NamesRule(maxMessageSize, server, nick), Visible(members, view), "", 0);
            output.outputQueue
            == old(output.outputQueue)
               + Stream(NamesLines(server, nick, visibility, channel, payloads), output.eolChars)
  {
    var maxOutputLength := MaxOutput(maxMessageSize, |nick| + |server| + 15);
    ghost var rule := NamesRule(maxMessageSize, server, nick);
    ghost var all := Pack(rule, Visible(members, view), "", 0);
    ghost var before := output.outputQueue;
    ghost var sent: seq<string> := [];
    ghost var count := 0;
    var reply := "";
    assert members[0..] == members && before + "" == before;
    for i := 0 to |members|
      invariant sent + Pack(rule, Visible(members[i..], view), reply, count) == all
      invariant output.outputQueue
                == before + Stream(NamesLines(server, nick, visibility, channel, sent), output.eolChars)
    {
      var member := members[i];
      NamesStep(rule, sent, members, view, i, reply, count);
      if CanSee(view, member) {
        count := if MustFlush(rule, |reply|, count, member.nick) then 0 else count + 1;
        reply, sent := AddName(output, server, nick, visibility, channel, reply, member.nick, maxOutputLength,
                               before, sent);
      }
    }
    if reply != "" {
      SendReply(output, server, nick, visibility, channel, reply, before, sent);
    }
    assert sent + [] == sent;
  }

  method SendNames(output: Output, server: string, nick: string, secret: bool, isPrivate: bool, channel: string,
                   members: seq<Member>, view: View, maxMessageSize: nat)
    modifies output
    ensures var payloads := Pack(NamesRule(maxMessageSize, server, nick), Visible(members, view), "", 0);
            output.outputQueue
            == old(output.outputQueue)
               + Stream(NamesLines(server, nick, VisibilityChar(secret, isPrivate), channel, payloads), output.eolChars)
  {
    var visibility := if secret then '@' else if isPrivate then '*' else '=';
    SendMembers(output, server, nick, visibility, channel, members, view, maxMessageSize);
  }

  lemma NamesStep(rule: Rule, sent: seq<string>, members: seq<Member>, view: View, i: nat, buffer: string, count: nat)
    requires i < |members|
    ensures var rest := Visible(members[i + 1..], view);
            sent + Pack(rule, Visible(members[i..], view), buffer, count)
            == if !CanSee(view, members[i]) then sent + Pack(rule, rest, buffer, count)
               else if MustFlush(rule, |buffer|, count, members[i].nick)
               then (sent + [buffer]) + Pack(rule, rest, members[i].nick, 0)
               else sent + Pack(rule, rest, Append(buffer, members[i].nick), count + 1)
  {
    var rest := Visible(members[i + 1..], view);
    assert members[i..][0] == members[i] && members[i..][1..] == members[i + 1..];
    if CanSee(view, members[i]) {
      assert ([members[i].nick] + rest)[1..] == rest;
      ConcatAssoc(sent, [buffer], Pack(rule, rest, members[i].nick, 0));
    } else {
      assert [] + rest == rest;
    }
  }

  lemma SentOneMoreName(before: string, server: string, nick: string, visibility: char, channel: string,
                        sent: seq<string>, payload: string, eol: string)
    ensures before + Stream(NamesLines(server, nick, visibility, channel, sent + [payload]), eol)
            == before + Stream(NamesLines(server, nick, visibility, channel, sent), eol)
               + (Format(NamesLine(server, nick, visibility, channel, payload)) + eol)
  {
    var ms := NamesLines(server, nick, visibility, channel, sent);
    var line := NamesLine(server, nick, visibility, channel, payload);
    assert NamesLines(server, nick, visibility, channel, sent + [payload]) == ms + [line];
    StreamSnoc(ms, line, eol);
    ConcatAssoc(before, Stream(ms, eol), Format(line) + eol);
  }

  /** The replies carry exactly the visible nicknames in order; when each is at most
      `maxOutputLength - 2` no reply is empty, and replies stay within `maxOutputLength - 2`,
      one more with two or more names. */
  lemma RepliesCarryVisibleNames(maxMessageSize: nat, server: string, nick: string, visible: seq<string>)
    requires AllNonEmpty(visible)
    ensures var rule := NamesRule(maxMessageSize, server, nick);
            var groups, payloads := Groups(rule, visible, [], 0), Pack(rule, visible, "", 0);
            && Flatten(groups) == visible && |groups| == |payloads|
            && (forall i | 0 <= i < |groups| :: payloads[i] == Joined(groups[i]))
            && ("" in payloads <==> visible != [] && |visible[0]| + 2 > rule.max)
            && (AllFit(rule, visible) ==>
                  forall i | 0 <= i < |payloads| :: |payloads[i]| + 2 <= rule.max + if |groups[i]| > 1 then 1 else 0)
  {
    var rule := NamesRule(maxMessageSize, server, nick);
    var groups, payloads := Groups(rule, visible, [], 0), Pack(rule, visible, "", 0);
    GroupsConserveItems(rule, visible, [], 0);
    assert [] + visible == visible;
    EmptyPayloadExactly(rule, visible);
    if AllFit(rule, visible) {
      PayloadsFit(rule, visible, [], 0);
      forall i | 0 <= i < |payloads|
        ensures |payloads[i]| + 2 <= rule.max + if |groups[i]| > 1 then 1 else 0
      {
        assert GoodLength(rule, groups[i]);
      }
    }
  }

  lemma NamesLineLength(server: string, nick: string, visibility: char, channel: string, payload: string)
    ensures |Format(NamesLine(server, nick, visibility, channel, payload))|
            == |server| + |nick| + |channel| + |payload| + 11
  {
    var params := [nick, [visibility], channel, payload];
    ParamTextWeight(params);
    assert params[1..] == [[visibility], channel, payload] && params[2..] == [channel, payload];
    assert [[visibility], channel, payload][1..] == [channel, payload] && [channel, payload][1..] == [payload];
    assert [payload][1..] == [];
    assert Weight([payload]) == |payload| + 1;
    assert Weight([channel, payload]) == |channel| + 1 + Weight([payload]);
    assert Weight([[visibility], channel, payload]) == 2 + Weight([channel, payload]);
  }

  /** Every line, with this terminator, is within the limit. */
  predicate LinesWithin(maxMessageSize: nat, server: string, nick: string, visibility: char, channel: string,
                        payloads: seq<string>, eol: string)
  {
    forall i | 0 <= i < |payloads| ::
      |Format(NamesLine(server, nick, visibility, channel, payloads[i])) + eol| <= maxMessageSize
  }

  /** The longest reply that fitting nicknames can make: one, or several with the space between. */
  function LongestReply(max: nat): nat {
    if max >= 4 then max - 1 else if max == 3 then 1 else 0
  }

  ghost predicate AllLinesWithin(maxMessageSize: nat, server: string, nick: string, visibility: char, channel: string,
                                 eol: string)
  {
    forall visible: seq<string> ::
      AllNonEmpty(visible) && AllFit(NamesRule(maxMessageSize, server, nick), visible) ==>
        LinesWithin(maxMessageSize, server, nick, visibility, channel,
                    Pack(NamesRule(maxMessageSize, server, nick), visible, "", 0), eol)
  }

  lemma ReplyAtMost(maxMessageSize: nat, server: string, nick: string, visible: seq<string>, i: nat)
    requires AllNonEmpty(visible) && AllFit(NamesRule(maxMessageSize, server, nick), visible)
    requires i < |Pack(NamesRule(maxMessageSize, server, nick), visible, "", 0)|
    ensures var max := NamesRule(maxMessageSize, server, nick).max;
            max >= 3 && |Pack(NamesRule(maxMessageSize, server, nick), visible, "", 0)[i]| <= LongestReply(max)
  {
    var rule := NamesRule(maxMessageSize, server, nick);
    RepliesCarryVisibleNames(maxMessageSize, server, nick, visible);
    GroupsConserveItems(rule, visible, [], 0);
    PayloadsFit(rule, visible, [], 0);
    var group := Groups(rule, visible, [], 0)[i];
    assert GoodLength(rule, group);
    JoinedAtLeast(group);
  }

  lemma LongestReplyIsSent(maxMessageSize: nat, server: string, nick: string) returns (visible: seq<string>)
    requires NamesRule(maxMessageSize, server, nick).max >= 3
    ensures var rule := NamesRule(maxMessageSize, server, nick);
            && AllNonEmpty(visible) && AllFit(rule, visible)
            && |Pack(rule, visible, "", 0)| == 1 && |Pack(rule, visible, "", 0)[0]| == LongestReply(rule.max)
  {
    var rule := NamesRule(maxMessageSize, server, nick);
    if rule.max == 3 {
      visible := ["a"];
      assert visible[1..] == [];
      assert Pack(rule, visible, "", 0) == Pack(rule, [], "a", 1) == ["a"];
    } else {
      var first, second := "a", seq(rule.max - 3, _ => 'b');
      visible := [first, second];
      assert visible[1..] == [second] && [second][1..] == [];
      assert Pack(rule, [second], first, 1) == Pack(rule, [], first + (" " + second), 2);
      assert Pack(rule, visible, "", 0) == [first + (" " + second)];
    }
  }

  /** Every member list of fitting nicknames keeps to `maxMessageSize` exactly when nothing fits at
      all, or the longest reply does with everything around it; whatever the limit has become. */
  lemma NamesLinesFitExactly(maxMessageSize: nat, server: string, nick: string, visibility: char, channel: string,
                             eol: string)
    ensures var max := NamesRule(maxMessageSize, server, nick).max;
            AllLinesWithin(maxMessageSize, server, nick, visibility, channel, eol)
            <==> max <= 2
                 || |server| + |nick| + 11 + |channel| + |eol| + LongestReply(max) <= maxMessageSize
  {
    var rule := NamesRule(maxMessageSize, server, nick);
    if rule.max <= 2 || |server| + |nick| + 11 + |channel| + |eol| + LongestReply(rule.max) <= maxMessageSize {
      forall visible: seq<string> | AllNonEmpty(visible) && AllFit(rule, visible)
        ensures LinesWithin(maxMessageSize, server, nick, visibility, channel, Pack(rule, visible, "", 0), eol)
      {
        var payloads := Pack(rule, visible, "", 0);
        forall i | 0 <= i < |payloads|
          ensures |Format(NamesLine(server, nick, visibility, channel, payloads[i])) + eol| <= maxMessageSize
        {
          ReplyAtMost(maxMessageSize, server, nick, visible, i);
          NamesLineLength(server, nick, visibility, channel, payloads[i]);
        }
      }
    } else {
      var visible := LongestReplyIsSent(maxMessageSize, server, nick);
      var reply := Pack(rule, visible, "", 0)[0];
      NamesLineLength(server, nick, visibility, channel, reply);
      assert !LinesWithin(maxMessageSize, server, nick, visibility, channel, Pack(rule, visible, "", 0), eol);
    }
  }

  /** So without underflow the limit forgets channel name and terminator: they have five octets
      between them, six if the limit is three. */
  lemma NamesLinesOnTheWire(maxMessageSize: nat, server: string, nick: string, visibility: char, channel: string,
                            eol: string)
    requires |nick| + |server| + 15 <= maxMessageSize < 0x1_0000_0000
    ensures var max := NamesRule(maxMessageSize, server, nick).max;
            AllLinesWithin(maxMessageSize, server, nick, visibility, channel, eol)
            <==> max <= 2 || |channel| + |eol| <= if max == 3 then 6 else 5
  {
    NamesLinesFitExactly(maxMessageSize, server, nick, visibility, channel, eol);
  }

  // ----- what a client reads

  lemma JoinedKeepsItsSpaces(group: seq<string>)
    requires AllMiddle(group)
    ensures !LosesItsSpace(Joined(group))
  {
    if group != [] {
      var last := group[|group| - 1];
      assert Joined(group)[|Joined(group)| - 1] == last[|last| - 1];
    }
  }

  lemma GoodNamesParams(nick: string, visibility: char, channel: string, reply: string)
    requires Middle(nick) && Middle(channel) && visibility in "@*=" && !LosesItsSpace(reply)
    ensures GoodParams([nick, [visibility], channel, reply])
  {
    assert visibility != ' ' && visibility != ':';
  }

  lemma ClientReadsNamesLine(server: string, nick: string, visibility: char, channel: string, group: seq<string>)
    requires SpaceFree(server) && Middle(nick) && Middle(channel) && visibility in "@*=" && AllMiddle(group)
    ensures Parse(Format(NamesLine(server, nick, visibility, channel, Joined(group))))
            == Some(Message(server, "353", [nick, [visibility], channel, Joined(group)]))
  {
    JoinedKeepsItsSpaces(group);
    GoodNamesParams(nick, visibility, channel, Joined(group));
    assert ToUpper("353") == "353";
    ParserUndoesPrinter(NamesLine(server, nick, visibility, channel, Joined(group)));
  }

  /** Read by a client, each line gives the server, the numeric 353, the nickname, the channel's sign
      (`@` secret, `*` private, `=` otherwise), the channel and a run of names with single spaces; the
      runs are the visible names in order. */
  lemma ClientReadsNames(maxMessageSize: nat, server: string, nick: string, secret: bool, isPrivate: bool,
                         channel: string, members: seq<Member>, view: View)
    requires SpaceFree(server) && Middle(nick) && Middle(channel) && AllMiddle(Visible(members, view))
    ensures var rule, visible := NamesRule(maxMessageSize, server, nick), Visible(members, view);
            var sign := if secret then "@" else if isPrivate then "*" else "=";
            var groups := Groups(rule, visible, [], 0);
            var payloads := Pack(rule, visible, "", 0);
            var lines := NamesLines(server, nick, VisibilityChar(secret, isPrivate), channel, payloads);
            && Flatten(groups) == visible && |groups| == |lines|
            && forall i | 0 <= i < |lines| ::
                 Parse(Format(lines[i])) == Some(Message(server, "353", [nick, sign, channel, Joined(groups[i])]))
  {
    var rule, visible := NamesRule(maxMessageSize, server, nick), Visible(members, view);
    var groups, sign := Groups(rule, visible, [], 0), VisibilityChar(secret, isPrivate);
    RepliesCarryVisibleNames(maxMessageSize, server, nick, visible);
    forall i | 0 <= i < |groups|
      ensures Parse(Format(NamesLine(server, nick, sign, channel, Joined(groups[i]))))
              == Some(Message(server, "353", [nick, [sign], channel, Joined(groups[i])]))
    {
      GroupIsPart(groups, i, visible);
      ClientReadsNamesLine(server, nick, sign, channel, groups[i]);
    }
  }
}
