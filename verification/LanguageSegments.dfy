/** Multi-call language texts (`LanguageData::get` with a call-out): the text is cut at newline
    markers and each processed segment is handed out until the call-out refuses. */
module LanguageSegments {
  import opened Text
  import opened LanguageText
  import LanguageMeaning

  /** `find(newLineMarkerChar, start)`, with `|text|` standing for npos. */
  function FindNewLine(text: string, start: nat): (end: nat)
    requires start <= |text|
    ensures start <= end <= |text| && forall i | start <= i < end :: text[i] != NEW_LINE
    ensures end < |text| ==> text[end] == NEW_LINE
    decreases |text| - start
  {
    if start == |text| || text[start] == NEW_LINE then start else FindNewLine(text, start + 1)
  }

  function Segments(text: string, start: nat := 0): (segments: seq<string>)
    requires start <= |text|
    ensures segments != []
    decreases |text| - start
  {
    var end := FindNewLine(text, start);
    if end == |text| then [text[start..end]] else [text[start..end]] + Segments(text, end + 1)
  }

  function Joined(segments: seq<string>): string {
    if segments == [] then ""
    else if |segments| == 1 then segments[0]
    else segments[0] + ([NEW_LINE] + Joined(segments[1..]))
  }

  lemma JoinedCons(head: string, tail: seq<string>)
    requires tail != []
    ensures Joined([head] + tail) == head + ([NEW_LINE] + Joined(tail))
  {
    assert ([head] + tail)[1..] == tail;
  }

  /** Joining the segments with the marker restores the text. */
  lemma {:induction false} SegmentsRestoreText(text: string, start: nat := 0)
    requires start <= |text|
    ensures Joined(Segments(text, start)) == text[start..]
    decreases |text| - start
  {
    var end := FindNewLine(text, start);
    if end == |text| {
      assert text[start..end] == text[start..];
      assert Joined([text[start..end]]) == text[start..end];
    } else {
      SegmentsRestoreText(text, end + 1);
      JoinedCons(text[start..end], Segments(text, end + 1));
      SplitAt(text, start, end);
    }
  }

  /** No segment holds a marker. */
  lemma {:induction false} SegmentsAreMarkerFree(text: string, start: nat := 0)
    requires start <= |text|
    ensures forall i | 0 <= i < |Segments(text, start)| :: NEW_LINE !in Segments(text, start)[i]
    decreases |text| - start
  {
    var end := FindNewLine(text, start);
    if end < |text| {
      var rest := Segments(text, end + 1);
      SegmentsAreMarkerFree(text, end + 1);
      assert forall i | 0 < i < |Segments(text, start)| :: Segments(text, start)[i] == rest[i - 1];
    }
  }

  /** The call-out's decision, from everything it has been given so far. */
  type CallOut = seq<string> -> bool

  /** What the call-out has received once it refuses or the segments run out. */
  function Calls(sofar: seq<string>, segments: seq<string>, more: CallOut, env: Env, params: Parameters): seq<string>
    decreases |segments|
  {
    if segments == [] then sofar
    else
      var given := sofar + [Processed(segments[0], env, params)];
      if more(given) then Calls(given, segments[1..], more, env, params) else given
  }

  /** The calls are the processed segments in order, cut short only by a refusal. */
  lemma {:induction false} CallsArePrefix(sofar: seq<string>, segments: seq<string>, more: CallOut,
                                          env: Env, params: Parameters)
    ensures var calls := Calls(sofar, segments, more, env, params);
            && |sofar| <= |calls| <= |sofar| + |segments|
            && calls[..|sofar|] == sofar
            && (forall i | |sofar| <= i < |calls| :: calls[i] == Processed(segments[i - |sofar|], env, params))
            && (forall i | |sofar| < i < |calls| :: more(calls[..i]))
            && (|calls| < |sofar| + |segments| ==> |calls| > |sofar| && !more(calls))
    decreases |segments|
  {
    if segments == [] {
      assert sofar[..|sofar|] == sofar;
    } else {
      var given := sofar + [Processed(segments[0], env, params)];
      assert given[..|sofar|] == sofar && given[..|given|] == given;
      if more(given) {
        CallsArePrefix(given, segments[1..], more, env, params);
        var calls := Calls(given, segments[1..], more, env, params);
        assert calls[..|sofar|] == calls[..|given|][..|sofar|];
        assert calls[|sofar|] == calls[..|given|][|sofar|];
        forall i | |sofar| < i < |calls| ensures more(calls[..i]) {
          if i == |given| {
            assert calls[..i] == given;
          }
        }
      }
    }
  }

  lemma CallStep(sofar: seq<string>, text: string, start: nat, more: CallOut, env: Env, params: Parameters)
    requires start <= |text|
    ensures var end := FindNewLine(text, start);
            var given := sofar + [Processed(text[start..end], env, params)];
            Calls(sofar, Segments(text, start), more, env, params)
            == if !more(given) || end == |text| then given
               else Calls(given, Segments(text, end + 1), more, env, params)
  {
    var end := FindNewLine(text, start);
    if end == |text| {
      assert [text[start..end]][1..] == [];
    } else {
      assert Segments(text, start)[1..] == Segments(text, end + 1);
    }
  }

  /** `get` with a call-out: no slot for the ID, a null slot dereferenced, or the calls made. */
  datatype Outcome = NoSlot | NullDereferenced | Called(calls: seq<string>)

  function MultiCall(tagData: seq<Option<string>>, tagID: nat, more: CallOut, env: Env, params: Parameters): Outcome {
    if tagID == 0 || tagID > |tagData| then NoSlot
    else if tagData[tagID - 1].None? then NullDereferenced
    else Called(Calls([], Segments(tagData[tagID - 1].value), more, env, params))
  }

  /** The slot is used without asking whether it holds a text. */
  method GetMultiCall(tagData: seq<Option<string>>, tagID: nat, more: CallOut, env: Env, params: Parameters)
    returns (outcome: Outcome)
    ensures outcome == MultiCall(tagData, tagID, more, env, params)
  {
    if tagID == 0 || tagID > |tagData| {
      return NoSlot;
    }
    if tagData[tagID - 1].None? {
      return NullDereferenced;
    }
    var tag := tagData[tagID - 1].value;
    var calls := [];
    var start := 0;
    while true
      invariant start <= |tag|
      invariant Calls(calls, Segments(tag, start), more, env, params) == Calls([], Segments(tag), more, env, params)
      decreases |tag| - start
    {
      CallStep(calls, tag, start, more, env, params);
      var end := FindNewLine(tag, start);
      var segment := Process(tag[start..end], env, params);
      calls := calls + [segment];
      if !more(calls) {
        return Called(calls);
      }
      if end >= |tag| {
        return Called(calls);
      }
      start := end + 1;
    }
  }

  /** Loading replaces newline markers, so a loaded text is always handed out in one call. */
  lemma LoadedTextIsOneSegment(source: string, more: CallOut, env: Env, params: Parameters)
    ensures Calls([], Segments(Compile(source)), more, env, params) == [Processed(Compile(source), env, params)]
  {
    var text := Compile(source);
    LanguageMeaning.CompiledTextHasNoNewLine(source);
    assert FindNewLine(text, 0) == |text|;
    assert text[0..|text|] == text;
    CallStep([], text, 0, more, env, params);
  }
}
