/** Exactly how far RPL_ISUPPORT keeps its two limits: parameters per line, and octets per line
    with the terminator counted. */
module IsupportLimits {
  import opened Text
  import opened MessageFormat
  import opened Irc2Protocol
  import opened Packing
  import opened UserReplies

  // ----- groups that outgrow the counted limit

  predicate Overfull(groups: seq<seq<string>>, limit: nat) {
    exists i | 0 <= i < |groups| :: |groups[i]| > limit
  }

  lemma AppendLength(group: seq<string>, item: string)
    ensures |Joined(group + [item])| <= |Joined(group)| + 1 + |item|
  {
    JoinedSnoc(group, item);
  }

  /** While length never forces a flush, a group outgrows `limit` exactly from this many items on. */
  lemma {:induction false} OverfullFrom(rule: Rule, items: seq<string>, group: seq<string>, count: nat, flushed: bool)
    requires rule.count.Some? && |group| == count + (if flushed then 1 else 0) && count <= rule.count.value
    requires |Joined(group)| + Weight(items) + rule.slack <= rule.max + 1
    ensures Overfull(Groups(rule, items, group, count), rule.count.value)
            <==> count + |items| >= if flushed then rule.count.value else 2 * rule.count.value + 1
    decreases |items|
  {
    var limit := rule.count.value;
    if items == [] {
      assert group != [] ==> [group][0] == group;
    } else {
      var item := items[0];
      if MustFlush(rule, |Joined(group)|, count, item) {
        JoinedOne(item);
        GroupsFlush(rule, items, group, count);
        OverfullFrom(rule, items[1..], [item], 0, true);
        OverfullCons(group, Groups(rule, items[1..], [item], 0), limit);
        assert Groups(rule, items, group, count) == [group] + Groups(rule, items[1..], [item], 0);
      } else {
        AppendLength(group, item);
        OverfullFrom(rule, items[1..], group + [item], count + 1, flushed);
      }
    }
  }

  lemma OverfullCons(group: seq<string>, rest: seq<seq<string>>, limit: nat)
    ensures Overfull([group] + rest, limit) <==> |group| > limit || Overfull(rest, limit)
  {
    var groups := [group] + rest;
    assert groups[0] == group;
    assert forall i | 0 <= i < |rest| :: groups[i + 1] == rest[i];
    if i :| 0 < i < |groups| && |groups[i]| > limit {
      assert |rest[i - 1]| > limit;
    }
  }

  /** The group being filled never shrinks. */
  lemma {:induction false} FirstGroupKeeps(rule: Rule, items: seq<string>, group: seq<string>, count: nat, limit: nat)
    requires |group| > limit
    ensures Overfull(Groups(rule, items, group, count), limit)
    decreases |items|
  {
    if items == [] {
      assert [group][0] == group;
    } else if MustFlush(rule, |Joined(group)|, count, items[0]) {
      OverfullCons(group, Groups(rule, items[1..], [items[0]], 0), limit);
    } else {
      FirstGroupKeeps(rule, items[1..], group + [items[0]], count + 1, limit);
    }
  }

  /** More items never repair an overfull group. */
  lemma {:induction false} OverfullStays(rule: Rule, items: seq<string>, more: seq<string>, group: seq<string>,
                                         count: nat, limit: nat)
    requires Overfull(Groups(rule, items, group, count), limit)
    ensures Overfull(Groups(rule, items + more, group, count), limit)
    decreases |items|
  {
    if items == [] {
      assert items + more == more;
      FirstGroupKeeps(rule, more, group, count, limit);
    } else {
      assert (items + more)[0] == items[0] && (items + more)[1..] == items[1..] + more;
      if MustFlush(rule, |Joined(group)|, count, items[0]) {
        OverfullCons(group, Groups(rule, items[1..], [items[0]], 0), limit);
        OverfullCons(group, Groups(rule, items[1..] + more, [items[0]], 0), limit);
        if Overfull(Groups(rule, items[1..], [items[0]], 0), limit) {
          OverfullStays(rule, items[1..], more, [items[0]], 0, limit);
        }
      } else {
        OverfullStays(rule, items[1..], more, group + [items[0]], count + 1, limit);
      }
    }
  }

  // ----- lists too short to outgrow it

  /** A group shares the items with the groups before it. */
  lemma {:induction false} PartsWithin<T>(parts: seq<seq<T>>, i: nat)
    requires i < |parts|
    ensures |parts[i]| <= |Flatten(parts)|
    ensures i > 0 ==> |parts[0]| + |parts[i]| <= |Flatten(parts)|
    decreases |parts|
  {
    if i > 0 {
      PartsWithin(parts[1..], i - 1);
    }
  }

  lemma ShortListsStayWithin(rule: Rule, info: seq<string>, i: nat)
    requires rule.count.Some? && rule.count.value > 0 && AllNonEmpty(info) && AllFit(rule, info)
    requires i < |Groups(rule, info, [], 0)|
    requires |info| <= rule.count.value + 1 || rule.max < rule.slack + 2 * rule.count.value
    ensures |Groups(rule, info, [], 0)[i]| <= rule.count.value
  {
    var groups := Groups(rule, info, [], 0);
    GroupSizes(rule, info, [], 0, false);
    PayloadsFit(rule, info, [], 0);
    GroupsConserveItems(rule, info, [], 0);
    assert [] + info == info;
    assert GoodLength(rule, groups[0]) && GoodLength(rule, groups[i]);
    PartsWithin(groups, i);
    JoinedAtLeast(groups[i]);
  }

  // ----- a list that does

  /** A first token that leaves no room, then `count` tokens of one octet. */
  function Overfilling(max: nat, count: nat): seq<string> {
    [seq(max, _ => 'a')] + seq(count, _ => "b")
  }

  lemma {:induction false} WeightOfOnes(count: nat)
    ensures Weight(seq(count, _ => "b")) == 2 * count
  {
    if count > 0 {
      var ones := seq(count, _ => "b");
      assert ones[0] == "b" && ones[1..] == seq(count - 1, _ => "b");
      WeightOfOnes(count - 1);
    }
  }

  /** One token more than the counted limit allows in two lines: the flush that the second token
      causes forgets to count it. */
  lemma OverfillingOverfills(rule: Rule)
    requires rule.count.Some? && rule.count.value > 0 && rule.slack == 0 && rule.max >= 2 * rule.count.value
    ensures var info := Overfilling(rule.max, rule.count.value + 1);
            && AllNonEmpty(info) && AllFit(rule, info)
            && Overfull(Groups(rule, info, [], 0), rule.count.value)
  {
    var limit := rule.count.value;
    var info := Overfilling(rule.max, limit + 1);
    var first, rest := info[0], info[1..];
    var tail := seq(limit, _ => "b");
    assert rest[0] == "b" && rest[1..] == tail;
    JoinedOne(first);
    JoinedOne("b");
    assert [] + [first] == [first];
    WeightOfOnes(limit);
    assert MustFlush(rule, |first|, 1, "b");
    OverfullFrom(rule, tail, ["b"], 0, true);
    OverfullCons([first], Groups(rule, tail, ["b"], 0), limit);
    assert Groups(rule, rest, [first], 1) == [[first]] + Groups(rule, tail, ["b"], 0);
    assert Groups(rule, info, [], 0) == Groups(rule, rest, [first], 1);
  }

  // ----- the parameter limit

  /** Every line carries at most `MAX_PARAMS` parameters. */
  predicate ParamsWithin(rule: Rule, nick: string, suffix: string, info: seq<string>) {
    var groups := Groups(rule, info, [], 0);
    forall i | 0 <= i < |groups| :: |[nick] + groups[i] + [suffix]| <= MAX_PARAMS
  }

  lemma ParamsWithinMeans(rule: Rule, nick: string, suffix: string, info: seq<string>)
    ensures ParamsWithin(rule, nick, suffix, info) <==> !Overfull(Groups(rule, info, [], 0), MAX_PARAMS - 2)
  {
    var groups := Groups(rule, info, [], 0);
    assert forall i | 0 <= i < |groups| :: |[nick] + groups[i] + [suffix]| == |groups[i]| + 2;
  }

  /** A line of more than `MAX_PARAMS` parameters can be had from this many fitting tokens. */
  lemma LongListCanOverfill(rule: Rule, nick: string, suffix: string, n: nat) returns (info: seq<string>)
    requires rule.count == Some(MAX_PARAMS - 2) && rule.slack == 0 && n >= MAX_PARAMS && rule.max >= 26
    ensures |info| == n && AllNonEmpty(info) && AllFit(rule, info) && !ParamsWithin(rule, nick, suffix, info)
  {
    var base, more := Overfilling(rule.max, MAX_PARAMS - 1), seq(n - MAX_PARAMS, _ => "b");
    info := base + more;
    OverfillingOverfills(rule);
    OverfullStays(rule, base, more, [], 0, MAX_PARAMS - 2);
    ParamsWithinMeans(rule, nick, suffix, info);
  }

  /** The limit of `MAX_PARAMS` parameters a line: every list of n fitting tokens keeps it exactly
      when there are at most 14, or the lines are too short to hold more than 13 tokens anyway. */
  lemma IsupportParameterLimit(maxMessageSize: nat, server: string, nick: string, suffix: string, n: nat)
    ensures var rule := IsupportRule(maxMessageSize, server, nick, suffix);
            (forall info: seq<string> | |info| == n && AllNonEmpty(info) && AllFit(rule, info) ::
               ParamsWithin(rule, nick, suffix, info))
            <==> n <= MAX_PARAMS - 1 || rule.max <= 25
  {
    var rule := IsupportRule(maxMessageSize, server, nick, suffix);
    if n <= MAX_PARAMS - 1 || rule.max <= 25 {
      forall info: seq<string> | |info| == n && AllNonEmpty(info) && AllFit(rule, info)
        ensures ParamsWithin(rule, nick, suffix, info)
      {
        var groups := Groups(rule, info, [], 0);
        forall i | 0 <= i < |groups| ensures |groups[i]| <= MAX_PARAMS - 2 {
          ShortListsStayWithin(rule, info, i);
        }
        ParamsWithinMeans(rule, nick, suffix, info);
      }
    } else {
      var info := LongListCanOverfill(rule, nick, suffix, n);
    }
  }

  /** For lists so short that length never matters, 27 tokens are needed. */
  lemma ShortTokensNeedMore(maxMessageSize: nat, server: string, nick: string, suffix: string, info: seq<string>)
    requires Weight(info) <= IsupportRule(maxMessageSize, server, nick, suffix).max + 1
    ensures ParamsWithin(IsupportRule(maxMessageSize, server, nick, suffix), nick, suffix, info) <==> |info| < 27
  {
    var rule := IsupportRule(maxMessageSize, server, nick, suffix);
    OverfullFrom(rule, info, [], 0, false);
    ParamsWithinMeans(rule, nick, suffix, info);
  }

  // ----- the terminator

  /** Every line, CR LF included, is within `maxMessageSize`. */
  predicate TerminatedWithin(maxMessageSize: nat, server: string, nick: string, suffix: string, payloads: seq<string>) {
    forall i | 0 <= i < |payloads| ::
      |Format(IsupportLine(server, nick, suffix, payloads[i])) + EOL_CR_LF| <= maxMessageSize
  }

  /** With its terminator a list's lines are within the limit exactly when every payload leaves one
      octet of its own limit free. */
  lemma TerminatedLinesFitExactly(maxMessageSize: nat, server: string, nick: string, suffix: string, info: seq<string>)
    requires |suffix| + |nick| + |server| + 10 <= maxMessageSize < 0x1_0000_0000
    ensures var rule := IsupportRule(maxMessageSize, server, nick, suffix);
            var payloads := Pack(rule, info, "", 0);
            TerminatedWithin(maxMessageSize, server, nick, suffix, payloads)
            <==> forall i | 0 <= i < |payloads| :: |payloads[i]| + 1 <= rule.max
  {
    var payloads := Pack(IsupportRule(maxMessageSize, server, nick, suffix), info, "", 0);
    forall i | 0 <= i < |payloads|
      ensures |Format(IsupportLine(server, nick, suffix, payloads[i])) + EOL_CR_LF|
              == |server| + |nick| + |payloads[i]| + |suffix| + 11
    {
      IsupportLineLength(server, nick, suffix, payloads[i]);
    }
  }

  // ----- how long tokens may be

  function Letters(length: nat): (s: string)
    ensures |s| == length
  {
    seq(length, _ => 'a')
  }

  function Repeated(length: nat, count: nat): (s: seq<string>)
    ensures |s| == count && forall i | 0 <= i < count :: |s[i]| == length
  {
    seq(count, _ => Letters(length))
  }

  /** The room that n more tokens of one length take, each with a space. */
  function Span(n: nat, length: nat): nat {
    if n == 0 then 0 else Span(n - 1, length) + length + 1
  }

  lemma {:induction false} SpanIsProduct(n: nat, length: nat)
    ensures Span(n, length) == n * (length + 1)
  {
    if n > 0 {
      SpanIsProduct(n - 1, length);
      assert n * (length + 1) == (n - 1) * (length + 1) + (length + 1);
    }
  }

  /** Tokens of one length join the buffer one after the other while they fit. */
  lemma {:induction false} PackGrows(rule: Rule, length: nat, n: nat, rest: seq<string>, buffer: string, count: nat)
    returns (grown: string)
    requires rule.slack == 0 && length > 0 && buffer != ""
    requires rule.count.Some? && count + n <= rule.count.value && |buffer| + Span(n, length) <= rule.max + 1
    ensures Pack(rule, Repeated(length, n) + rest, buffer, count) == Pack(rule, rest, grown, count + n)
    ensures |grown| == |buffer| + Span(n, length)
    decreases n
  {
    var items := Repeated(length, n) + rest;
    if n == 0 {
      assert items == rest;
      grown := buffer;
    } else {
      assert items[0] == Letters(length) && items[1..] == Repeated(length, n - 1) + rest;
      grown := PackGrows(rule, length, n - 1, rest, Append(buffer, Letters(length)), count + 1);
    }
  }

  /** A last token that takes the buffer past what leaves room for the terminator. */
  lemma PackEnds(rule: Rule, last: string, buffer: string, count: nat)
    requires rule.slack == 0 && last != "" && buffer != "" && rule.count.Some? && count < rule.count.value
    requires |buffer| + |last| <= rule.max <= |buffer| + 1 + |last|
    ensures exists payload :: Pack(rule, [last], buffer, count) == [payload] && |payload| >= rule.max
  {
    assert [last][1..] == [];
    assert Pack(rule, [last], buffer, count) == [Append(buffer, last)];
  }

  /** The list: as many tokens of full length as go into one payload, one more to fill it, and in front
      13 short ones if that is one token too many for a first line. */
  function Filling(max: nat, length: nat): seq<string>
    requires length > 0
  {
    var m := max / (length + 1);
    var last := Letters(if max % (length + 1) == 0 then 1 else max % (length + 1));
    if m == 0 then [last]
    else (if m < MAX_PARAMS - 2 then [] else Repeated(1, MAX_PARAMS - 2)) + (Repeated(length, m) + [last])
  }

  lemma FillingShort(rule: Rule, length: nat)
    requires rule.slack == 0 && rule.count == Some(MAX_PARAMS - 2) && 0 < length
    requires rule.max < length + 1
    ensures exists i | 0 <= i < |Pack(rule, Filling(rule.max, length), "", 0)| ::
              |Pack(rule, Filling(rule.max, length), "", 0)[i]| + 1 > rule.max
  {
    var info := Filling(rule.max, length);
    assert rule.max / (length + 1) == 0 && rule.max % (length + 1) == rule.max;
    var token := info[0];
    assert info == [token] && info[1..] == [];
    var payloads := Pack(rule, info, "", 0);
    if rule.max == 0 {
      assert payloads == [""] + Pack(rule, [], token, 0) == ["", token];
      assert |payloads[1]| == 1;
    } else {
      assert payloads == Pack(rule, [], token, 1) == [token];
      assert |payloads[0]| == rule.max;
    }
  }

  /** One group of m full tokens and the last one, starting a fresh line. */
  lemma FillingGroup(rule: Rule, length: nat, m: nat, last: string, count: nat)
    requires rule.slack == 0 && rule.count.Some? && length > 0 && m > 0 && last != ""
    requires m * (length + 1) <= rule.max && count + m <= rule.count.value
    requires m * (length + 1) + |last| <= rule.max + 1 && rule.max <= m * (length + 1) + |last|
    ensures exists payload :: |payload| >= rule.max
              && Pack(rule, Repeated(length, m - 1) + [last], Letters(length), count) == [payload]
  {
    SpanIsProduct(m, length);
    var grown := PackGrows(rule, length, m - 1, [last], Letters(length), count);
    PackEnds(rule, last, grown, count + m - 1);
  }

  lemma TimesGrows(a: nat, b: nat, c: nat)
    ensures a <= b ==> a * c <= b * c
  {
  }

  lemma DividesInto(a: nat, d: nat, most: nat)
    requires d > 0 && a < (most + 1) * d
    ensures a / d <= most && a / d * d + a % d == a && a % d < d
    ensures a / d == 0 ==> a < d
  {
    var q := a / d;
    assert q * d <= a;
    TimesGrows(most + 1, q, d);
  }

  /** The group alone, on the first line. */
  lemma FillingFirst(rule: Rule, length: nat, m: nat, last: string)
    requires rule.slack == 0 && rule.count == Some(MAX_PARAMS - 2) && 0 < length && last != ""
    requires 0 < m < MAX_PARAMS - 2 && length <= rule.max
    requires m * (length + 1) <= rule.max <= m * (length + 1) + |last| <= rule.max + 1
    ensures var payloads := Pack(rule, Repeated(length, m) + [last], "", 0);
            |payloads| == 1 && |payloads[0]| >= rule.max
  {
    var full := Letters(length);
    var group := Repeated(length, m) + [last];
    assert group[0] == full && group[1..] == Repeated(length, m - 1) + [last];
    FillingGroup(rule, length, m, last, 1);
    assert Pack(rule, group, "", 0) == Pack(rule, group[1..], full, 1);
  }

  lemma FillingOverruns(rule: Rule, length: nat)
    requires rule.slack == 0 && rule.count == Some(MAX_PARAMS - 2) && 0 < length
    requires rule.max < 14 * (length + 1)
    ensures exists i | 0 <= i < |Pack(rule, Filling(rule.max, length), "", 0)| ::
              |Pack(rule, Filling(rule.max, length), "", 0)[i]| + 1 > rule.max
  {
    var m, remainder := rule.max / (length + 1), rule.max % (length + 1);
    DividesInto(rule.max, length + 1, 13);
    var last := Letters(if remainder == 0 then 1 else remainder);
    if m == 0 {
      FillingShort(rule, length);
    } else if m < MAX_PARAMS - 2 {
      TimesGrows(1, m, length + 1);
      FillingFirst(rule, length, m, last);
      assert Filling(rule.max, length) == Repeated(length, m) + [last];
    } else {
      FillingLater(rule, length, Repeated(length, m) + [last], last);
    }
  }

  /** The same behind a first line filled by 13 one-octet tokens. */
  lemma FillingLater(rule: Rule, length: nat, group: seq<string>, last: string)
    requires rule.slack == 0 && rule.count == Some(MAX_PARAMS - 2) && 0 < length && last != ""
    requires group == Repeated(length, MAX_PARAMS - 2) + [last]
    requires 13 * (length + 1) <= rule.max <= 13 * (length + 1) + |last| <= rule.max + 1
    ensures var payloads := Pack(rule, Repeated(1, MAX_PARAMS - 2) + group, "", 0);
            |payloads| == 2 && |payloads[1]| >= rule.max
  {
    var ones := Repeated(1, MAX_PARAMS - 2);
    var items := ones + group;
    assert items[0] == Letters(1) && items[1..] == Repeated(1, MAX_PARAMS - 3) + group;
    SpanIsProduct(MAX_PARAMS - 3, 1);
    var grown := PackGrows(rule, 1, MAX_PARAMS - 3, group, Letters(1), 1);
    assert group[0] == Letters(length) && group[1..] == Repeated(length, MAX_PARAMS - 3) + [last];
    FillingGroup(rule, length, MAX_PARAMS - 2, last, 0);
    assert Pack(rule, items, "", 0) == Pack(rule, group, grown, MAX_PARAMS - 2);
    assert Pack(rule, group, grown, MAX_PARAMS - 2) == [grown] + Pack(rule, group[1..], Letters(length), 0);
  }

  lemma {:induction false} JoinedAtMost(group: seq<string>, length: nat)
    requires forall i | 0 <= i < |group| :: |group[i]| <= length
    ensures |Joined(group)| <= |group| * (length + 1)
    ensures group != [] ==> |Joined(group)| + 1 <= |group| * (length + 1)
    decreases |group|
  {
    if group != [] {
      var front, last := group[..|group| - 1], group[|group| - 1];
      JoinedAtMost(front, length);
      assert group == front + [last];
      JoinedSnoc(front, last);
      assert |group| * (length + 1) == |front| * (length + 1) + length + 1;
    }
  }

  lemma {:induction false} PartsHaveLength(parts: seq<seq<string>>, i: nat, length: nat)
    requires i < |parts| && forall k | 0 <= k < |Flatten(parts)| :: |Flatten(parts)[k]| <= length
    ensures forall k | 0 <= k < |parts[i]| :: |parts[i][k]| <= length
    decreases |parts|
  {
    var rest := Flatten(parts[1..]);
    assert Flatten(parts) == parts[0] + rest;
    if i == 0 {
      assert forall k | 0 <= k < |parts[0]| :: parts[0][k] == Flatten(parts)[k];
    } else {
      assert forall k | 0 <= k < |rest| :: rest[k] == Flatten(parts)[|parts[0]| + k];
      PartsHaveLength(parts[1..], i - 1, length);
    }
  }

  /** Tokens so short that 14 of them leave room for the terminator. */
  lemma ShortTokensFit(rule: Rule, info: seq<string>, length: nat, i: nat)
    requires rule.count == Some(MAX_PARAMS - 2) && AllNonEmpty(info) && i < |Pack(rule, info, "", 0)|
    requires (forall k | 0 <= k < |info| :: |info[k]| <= length) && 14 * (length + 1) <= rule.max
    ensures |Pack(rule, info, "", 0)[i]| + 1 <= rule.max
  {
    var groups := Groups(rule, info, [], 0);
    GroupsConserveItems(rule, info, [], 0);
    GroupSizes(rule, info, [], 0, false);
    assert [] + info == info;
    PartsHaveLength(groups, i, length);
    JoinedAtMost(groups[i], length);
    TimesGrows(|groups[i]|, 14, length + 1);
  }

  predicate TokensUpTo(info: seq<string>, length: nat) {
    forall i | 0 <= i < |info| :: 0 < |info[i]| <= length
  }

  lemma FillingIsUpTo(max: nat, length: nat)
    requires length > 0
    ensures TokensUpTo(Filling(max, length), length)
  {
    var m := max / (length + 1);
    assert max % (length + 1) <= length;
  }

  /** With the terminator, every list of tokens of at most this many octets keeps the limit exactly
      when 14 of them, each with a space, fit into it. */
  lemma TokenLengthsFitExactly(maxMessageSize: nat, server: string, nick: string, suffix: string, length: nat)
    requires |suffix| + |nick| + |server| + 10 <= maxMessageSize < 0x1_0000_0000
    ensures var rule := IsupportRule(maxMessageSize, server, nick, suffix);
            (forall info: seq<string> | TokensUpTo(info, length) ::
               TerminatedWithin(maxMessageSize, server, nick, suffix, Pack(rule, info, "", 0)))
            <==> length == 0 || 14 * (length + 1) <= rule.max
  {
    var rule := IsupportRule(maxMessageSize, server, nick, suffix);
    if length == 0 || 14 * (length + 1) <= rule.max {
      forall info: seq<string> | TokensUpTo(info, length)
        ensures TerminatedWithin(maxMessageSize, server, nick, suffix, Pack(rule, info, "", 0))
      {
        TerminatedLinesFitExactly(maxMessageSize, server, nick, suffix, info);
        forall i | 0 <= i < |Pack(rule, info, "", 0)| ensures |Pack(rule, info, "", 0)[i]| + 1 <= rule.max {
          TokensNeedLength(info, length);
          ShortTokensFit(rule, info, length, i);
        }
      }
    } else {
      FillingOverruns(rule, length);
      FillingIsUpTo(rule.max, length);
      TerminatedLinesFitExactly(maxMessageSize, server, nick, suffix, Filling(rule.max, length));
    }
  }

  lemma TokensNeedLength(info: seq<string>, length: nat)
    requires TokensUpTo(info, length)
    ensures length > 0 || info == []
    ensures AllNonEmpty(info)
  {
    if info != [] {
      assert 0 < |info[0]| <= length;
    }
  }

  lemma FittingTokensNeedRoom(rule: Rule, info: seq<string>)
    requires AllNonEmpty(info) && AllFit(rule, info)
    ensures rule.max > 0 || info == []
  {
    if info != [] {
      assert 0 < |info[0]| <= rule.max;
    }
  }

  /** So no limit covers the terminator for every list of fitting tokens, unless nothing fits. */
  lemma TerminatorIsForgotten(maxMessageSize: nat, server: string, nick: string, suffix: string)
    requires |suffix| + |nick| + |server| + 10 <= maxMessageSize < 0x1_0000_0000
    ensures var rule := IsupportRule(maxMessageSize, server, nick, suffix);
            (forall info: seq<string> | AllNonEmpty(info) && AllFit(rule, info) ::
               TerminatedWithin(maxMessageSize, server, nick, suffix, Pack(rule, info, "", 0)))
            <==> rule.max == 0
  {
    var rule := IsupportRule(maxMessageSize, server, nick, suffix);
    if rule.max == 0 {
      forall info: seq<string> | AllNonEmpty(info) && AllFit(rule, info)
        ensures TerminatedWithin(maxMessageSize, server, nick, suffix, Pack(rule, info, "", 0))
      {
        FittingTokensNeedRoom(rule, info);
      }
    } else {
      var token := seq(rule.max, _ => 'a');
      assert [token][1..] == [];
      assert Pack(rule, [token], "", 0) == Pack(rule, [], token, 1) == [token];
      assert AllNonEmpty([token]) && AllFit(rule, [token]);
      TerminatedLinesFitExactly(maxMessageSize, server, nick, suffix, [token]);
    }
  }
}
