/** Packing items into reply lines, as `sendISUPPORT` and `sendNames` do: a buffer is flushed
    when the next item would overfill it, with their different counting rules. */
module Packing {
  import opened Text
  import opened MessageFormat

  /** When to flush: the buffer's length plus the item's plus `slack` may not exceed `max`, and
      with a count limit the running count of items may not pass it. */
  datatype Rule = Rule(max: nat, slack: nat, count: Option<nat>)

  predicate MustFlush(rule: Rule, length: nat, count: nat, item: string) {
    (rule.count.Some? && count + 1 > rule.count.value) || length + |item| + rule.slack > rule.max
  }

  /** The item appended to the buffer, after a space unless the buffer is empty. */
  function Append(buffer: string, item: string): string {
    if buffer == "" then item else buffer + (" " + item)
  }

  /** The payloads sent. A flush resets the count before the item is added, so that item is not counted. */
  function Pack(rule: Rule, items: seq<string>, buffer: string, count: nat): seq<string>
    decreases |items|
  {
    if items == [] then if buffer == "" then [] else [buffer]
    else if MustFlush(rule, |buffer|, count, items[0]) then [buffer] + Pack(rule, items[1..], items[0], 0)
    else Pack(rule, items[1..], Append(buffer, items[0]), count + 1)
  }

  // ----- the same, keeping the items apart

  function Joined(group: seq<string>): string {
    if group == [] then "" else Append(Joined(group[..|group| - 1]), group[|group| - 1])
  }

  function Groups(rule: Rule, items: seq<string>, group: seq<string>, count: nat): seq<seq<string>>
    decreases |items|
  {
    if items == [] then if group == [] then [] else [group]
    else if MustFlush(rule, |Joined(group)|, count, items[0]) then [group] + Groups(rule, items[1..], [items[0]], 0)
    else Groups(rule, items[1..], group + [items[0]], count + 1)
  }

  predicate AllNonEmpty(items: seq<string>) {
    forall i | 0 <= i < |items| :: items[i] != ""
  }

  lemma JoinedSnoc(group: seq<string>, item: string)
    ensures Joined(group + [item]) == Append(Joined(group), item)
  {
    assert (group + [item])[..|group|] == group;
  }

  lemma JoinedOne(item: string)
    ensures Joined([item]) == item
  {
    assert [item][..0] == [];
  }

  lemma JoinedNonEmpty(group: seq<string>)
    requires AllNonEmpty(group)
    ensures Joined(group) == "" <==> group == []
  {
  }

  /** The payloads are the joined groups, and the groups are the items in order, none lost or repeated. */
  lemma {:induction false} GroupsConserveItems(rule: Rule, items: seq<string>, group: seq<string>, count: nat)
    requires AllNonEmpty(items) && AllNonEmpty(group)
    ensures var groups := Groups(rule, items, group, count);
            var payloads := Pack(rule, items, Joined(group), count);
            && |groups| == |payloads|
            && (forall i | 0 <= i < |groups| :: payloads[i] == Joined(groups[i]) && AllNonEmpty(groups[i]))
            && Flatten(groups) == group + items
    decreases |items|
  {
    JoinedNonEmpty(group);
    if items == [] {
      if group != [] {
        FlattenOne(group);
      }
      assert group + items == group;
    } else {
      var item, rest := items[0], items[1..];
      assert items == [item] + rest;
      ConcatAssoc(group, [item], rest);
      if MustFlush(rule, |Joined(group)|, count, item) {
        JoinedOne(item);
        GroupsConserveItems(rule, rest, [item], 0);
        FlattenCons(group, Groups(rule, rest, [item], 0));
      } else {
        JoinedSnoc(group, item);
        GroupsConserveItems(rule, rest, group + [item], count + 1);
      }
    }
  }

  lemma FlattenOne<T>(part: seq<T>)
    ensures Flatten([part]) == part
  {
    assert Flatten([part]) == part + Flatten([part][1..]);
  }

  lemma FlattenCons<T>(part: seq<T>, parts: seq<seq<T>>)
    ensures Flatten([part] + parts) == part + Flatten(parts)
  {
    assert ([part] + parts)[1..] == parts;
  }

  lemma GroupsFlush(rule: Rule, items: seq<string>, group: seq<string>, count: nat)
    requires items != [] && MustFlush(rule, |Joined(group)|, count, items[0])
    ensures var groups := Groups(rule, items, group, count);
            var rest := Groups(rule, items[1..], [items[0]], 0);
            && |groups| == |rest| + 1 && groups[0] == group
            && forall i | 0 < i < |groups| :: groups[i] == rest[i - 1]
  {
  }

  // ----- sizes

  lemma {:induction false} JoinedAtLeast(group: seq<string>)
    requires group != [] && AllNonEmpty(group)
    ensures |Joined(group)| >= 2 * |group| - 1
    decreases |group|
  {
    var front, last := group[..|group| - 1], group[|group| - 1];
    assert group == front + [last];
    JoinedSnoc(front, last);
    if front != [] {
      JoinedAtLeast(front);
    }
  }

  /** No item is too long for an empty buffer. */
  predicate AllFit(rule: Rule, items: seq<string>) {
    forall i | 0 <= i < |items| :: |items[i]| + rule.slack <= rule.max
  }

  /** Payload lengths: one item alone within `max - slack`, two or more one octet longer for the space. */
  predicate GoodLength(rule: Rule, group: seq<string>) {
    group != [] && |Joined(group)| + rule.slack <= rule.max + if |group| > 1 then 1 else 0
  }

  predicate AllGoodLength(rule: Rule, groups: seq<seq<string>>) {
    forall i | 0 <= i < |groups| :: GoodLength(rule, groups[i])
  }

  lemma {:induction false} PayloadsFit(rule: Rule, items: seq<string>, group: seq<string>, count: nat)
    requires AllNonEmpty(items) && AllNonEmpty(group) && AllFit(rule, items)
    requires group != [] ==> GoodLength(rule, group)
    requires group == [] ==> rule.count.None? || count < rule.count.value
    ensures AllGoodLength(rule, Groups(rule, items, group, count))
    decreases |items|
  {
    JoinedNonEmpty(group);
    if items != [] {
      var item := items[0];
      if MustFlush(rule, |Joined(group)|, count, item) {
        JoinedOne(item);
        PayloadsFit(rule, items[1..], [item], 0);
        GroupsFlush(rule, items, group, count);
      } else {
        JoinedSnoc(group, item);
        PayloadsFit(rule, items[1..], group + [item], count + 1);
      }
    }
  }

  predicate AllWithin(items: seq<string>, most: nat) {
    forall i | 0 <= i < |items| :: |items[i]| <= most
  }

  lemma AllWithinCons(item: string, tail: seq<string>, most: nat)
    ensures AllWithin([item] + tail, most) <==> |item| <= most && AllWithin(tail, most)
  {
    var items := [item] + tail;
    assert items[0] == item && forall i | 0 <= i < |tail| :: tail[i] == items[i + 1];
  }

  /** Payload lengths, exactly: with one octet of grace for the joining space, no payload is too long
      iff no item is. */
  lemma {:induction false} PayloadLengths(rule: Rule, items: seq<string>, buffer: string, count: nat, most: nat)
    requires most + rule.slack == rule.max + 1
    ensures AllWithin(Pack(rule, items, buffer, count), most) <==> |buffer| <= most && AllWithin(items, most)
    decreases |items|
  {
    if items == [] {
      AllWithinCons(buffer, [], most);
      assert [buffer] + [] == [buffer];
    } else {
      var item, tail := items[0], items[1..];
      assert items == [item] + tail;
      AllWithinCons(item, tail, most);
      if MustFlush(rule, |buffer|, count, item) {
        PayloadLengths(rule, tail, item, 0, most);
        AllWithinCons(buffer, Pack(rule, tail, item, 0), most);
      } else {
        PayloadLengths(rule, tail, Append(buffer, item), count + 1, most);
        assert |Append(buffer, item)| == if buffer == "" then |item| else |buffer| + 1 + |item|;
      }
    }
  }

  /** Starting empty, an empty payload is sent exactly when the very first item does not fit. */
  lemma EmptyPayloadExactly(rule: Rule, items: seq<string>)
    requires AllNonEmpty(items) && (rule.count.Some? ==> rule.count.value > 0)
    ensures "" in Pack(rule, items, "", 0) <==> items != [] && |items[0]| + rule.slack > rule.max
  {
    if items != [] {
      JoinedOne(items[0]);
      var count := if |items[0]| + rule.slack > rule.max then 0 else 1;
      var rest := Pack(rule, items[1..], items[0], count);
      LaterPayloadsNonEmpty(rule, items[1..], items[0], count);
      if |items[0]| + rule.slack > rule.max {
        assert Pack(rule, items, "", 0) == [""] + rest;
        assert ([""] + rest)[0] == "";
      }
    }
  }

  lemma {:induction false} LaterPayloadsNonEmpty(rule: Rule, items: seq<string>, buffer: string, count: nat)
    requires AllNonEmpty(items) && buffer != ""
    ensures "" !in Pack(rule, items, buffer, count)
    decreases |items|
  {
    if items != [] {
      if MustFlush(rule, |buffer|, count, items[0]) {
        LaterPayloadsNonEmpty(rule, items[1..], items[0], 0);
      } else {
        assert |Append(buffer, items[0])| > 0;
        LaterPayloadsNonEmpty(rule, items[1..], Append(buffer, items[0]), count + 1);
      }
    }
  }

  /** The first group has at most `limit` items, the others one more; all one more once flushed. */
  predicate SizesWithin(groups: seq<seq<string>>, limit: nat, flushed: bool) {
    forall i | 0 <= i < |groups| :: |groups[i]| <= limit + if flushed || i > 0 then 1 else 0
  }

  /** Counts: the group being filled holds `count` items, or one more after the first flush. */
  lemma {:induction false} GroupSizes(rule: Rule, items: seq<string>, group: seq<string>, count: nat, flushed: bool)
    requires rule.count.Some? && |group| == count + (if flushed then 1 else 0) && count <= rule.count.value
    ensures SizesWithin(Groups(rule, items, group, count), rule.count.value, flushed)
    decreases |items|
  {
    if items != [] {
      var item := items[0];
      if MustFlush(rule, |Joined(group)|, count, item) {
        GroupSizes(rule, items[1..], [item], 0, true);
        GroupsFlush(rule, items, group, count);
      } else {
        GroupSizes(rule, items[1..], group + [item], count + 1, flushed);
      }
    }
  }

  // ----- a reply is sent only when it has to be

  /** The group could not have taken one item more; the first item after a flush is not counted. */
  predicate Overfull(rule: Rule, group: seq<string>, later: bool, next: string) {
    || |Joined(group)| + |next| + rule.slack > rule.max
    || (rule.count.Some? && |group| >= rule.count.value + if later then 1 else 0)
  }

  /** Group `i`, unless it is the last, could not have taken the first item of the next. */
  predicate FlushNeeded(rule: Rule, groups: seq<seq<string>>, later: bool, i: nat)
    requires i < |groups|
  {
    i + 1 < |groups| ==>
      groups[i + 1] != [] && Overfull(rule, groups[i], later || i > 0, groups[i + 1][0])
  }

  predicate NothingEarly(rule: Rule, groups: seq<seq<string>>, later: bool) {
    forall i | 0 <= i < |groups| :: FlushNeeded(rule, groups, later, i)
  }

  lemma {:induction false} FirstGroupContinues(rule: Rule, items: seq<string>, group: seq<string>, count: nat)
    requires group != []
    ensures var groups := Groups(rule, items, group, count); groups != [] && groups[0] != [] && groups[0][0] == group[0]
    decreases |items|
  {
    if items != [] && !MustFlush(rule, |Joined(group)|, count, items[0]) {
      FirstGroupContinues(rule, items[1..], group + [items[0]], count + 1);
    }
  }

  /** Nothing is sent early: no group could have taken the first item of the next. */
  lemma {:induction false} FlushesAreNeeded(rule: Rule, items: seq<string>, group: seq<string>, count: nat, later: bool)
    requires |group| == count + if later then 1 else 0
    ensures NothingEarly(rule, Groups(rule, items, group, count), later)
    decreases |items|
  {
    if items != [] {
      if MustFlush(rule, |Joined(group)|, count, items[0]) {
        var rest := Groups(rule, items[1..], [items[0]], 0);
        FlushesAreNeeded(rule, items[1..], [items[0]], 0, true);
        FirstGroupContinues(rule, items[1..], [items[0]], 0);
        var groups := [group] + rest;
        assert groups == Groups(rule, items, group, count);
        forall i | 0 <= i < |groups| ensures FlushNeeded(rule, groups, later, i) {
          if i > 0 {
            assert FlushNeeded(rule, rest, true, i - 1);
          }
        }
      } else {
        FlushesAreNeeded(rule, items[1..], group + [items[0]], count + 1, later);
      }
    }
  }

  // ----- one parameter holding a group reads as the group

  /** A payload printed as one middle parameter looks like its items printed one by one. */
  lemma {:induction false} JoinedPrintsAsItems(group: seq<string>, tail: seq<string>)
    requires group != [] && AllNonEmpty(group) && tail != []
    ensures ParamText([Joined(group)] + tail) == ParamText(group + tail)
    decreases |group|
  {
    var last := group[|group| - 1];
    var front := group[..|group| - 1];
    assert group == front + [last];
    if front == [] {
      JoinedOne(last);
      assert group == [last];
    } else {
      JoinedSnoc(front, last);
      JoinedNonEmpty(front);
      JoinedPrintsAsItems(front, [last] + tail);
      ConcatAssoc(front, [last], tail);
      var head := Joined(front);
      assert ([head] + ([last] + tail))[1..] == [last] + tail && ([last] + tail)[1..] == tail;
      assert ([Joined(group)] + tail)[1..] == tail;
      ConcatAssoc(head, " " + last, ParamText(tail));
      ConcatAssoc(" ", last, ParamText(tail));
    }
  }
}
