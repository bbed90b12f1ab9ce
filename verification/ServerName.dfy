/** Server host names: the one-pass scan of `Server::Name::checkValidity` against the label
    grammar of sections 3.1 and 3.5 of RFC 1034, accepted names and error codes alike. */
module ServerName {
  import opened Text
  import opened Names

  // ----- the code

  /** The scan standing at `i` with `dots` dots behind it and `length` characters of the current label. */
  function Scan(name: string, i: nat, dots: nat, length: nat): NameError
    requires length <= i <= |name|
    decreases |name| - i
  {
    if i == |name| then if dots == 0 then ServerNameHasNoDot else NoError
    else if name[i] == '.' then
      if length == 0 then ServerNameHasDotDot
      else if name[i - 1] == '-' then NameHasBadChars
      else Scan(name, i + 1, dots + 1, 0)
    else if length + 1 > 63 then NameTooLong
    else if (if length == 0 then IsAlpha(name[i]) else IsAlnum(name[i]) || name[i] == '-') then
      Scan(name, i + 1, dots, length + 1)
    else NameHasBadChars
  }

  method CheckValidity(name: string) returns (error: NameError)
    ensures error == if |name| > 255 then NameTooLong else Scan(name, 0, 0, 0)
  {
    if |name| > 255 {
      return NameTooLong;
    }
    var dotCount, labelLength := 0, 0;
    var i := 0;
    while i != |name|
      invariant labelLength <= i <= |name|
      invariant Scan(name, i, dotCount, labelLength) == Scan(name, 0, 0, 0)
      decreases |name| - i
    {
      if name[i] == '.' {
        if labelLength == 0 {
          return ServerNameHasDotDot;
        }
        if name[i - 1] == '-' {
          return NameHasBadChars;
        }
        dotCount, labelLength := dotCount + 1, 0;
        i := i + 1;
        continue;
      }
      labelLength := labelLength + 1;
      if labelLength > 63 {
        return NameTooLong;
      }
      if labelLength == 1 {
        if IsAlpha(name[i]) {
          i := i + 1;
          continue;
        }
      } else {
        if IsAlnum(name[i]) {
          i := i + 1;
          continue;
        }
        if name[i] == '-' {
          i := i + 1;
          continue;
        }
      }
      return NameHasBadChars;
    }
    if dotCount == 0 {
      return ServerNameHasNoDot;
    }
    return NoError;
  }

  // ----- the grammar

  function FindDot(name: string, start: nat): (end: nat)
    requires start <= |name|
    ensures start <= end <= |name| && forall i | start <= i < end :: name[i] != '.'
    ensures end < |name| ==> name[end] == '.'
    decreases |name| - start
  {
    if start == |name| || name[start] == '.' then start else FindDot(name, start + 1)
  }

  /** The dot-separated labels from `start` on. */
  function Labels(name: string, start: nat := 0): (labels: seq<string>)
    requires start <= |name|
    ensures labels != []
    decreases |name| - start
  {
    var end := FindDot(name, start);
    if end == |name| then [name[start..end]] else [name[start..end]] + Labels(name, end + 1)
  }

  predicate LabelChar(word: string, i: nat)
    requires i < |word|
  {
    if i == 0 then IsAlpha(word[i]) else IsAlnum(word[i]) || word[i] == '-'
  }

  /** Letter-led letters, digits and hyphens, at most 63; possibly empty. */
  predicate LabelText(word: string) {
    |word| <= 63 && forall i | 0 <= i < |word| :: LabelChar(word, i)
  }

  predicate InnerLabel(word: string) {
    LabelText(word) && word != "" && word[|word| - 1] != '-'
  }

  /** Every label but the last is an inner label, and the last is label text. */
  predicate GoodLabels(labels: seq<string>) {
    && labels != []
    && (forall k | 0 <= k < |labels| - 1 :: InnerLabel(labels[k]))
    && LabelText(labels[|labels| - 1])
  }

  predicate Grammar(name: string) {
    |name| <= 255 && |Labels(name)| >= 2 && GoodLabels(Labels(name))
  }

  /** What is wrong with a label, judged left to right; its end is judged separately. */
  function LabelFault(word: string): NameError {
    if exists i | 0 <= i < Min(|word|, 63) :: !LabelChar(word, i) then NameHasBadChars
    else if |word| > 63 then NameTooLong
    else NoError
  }

  /** The first fault among the labels. */
  function Verdict(labels: seq<string>, dotSeen: bool): NameError
    requires labels != []
    decreases |labels|
  {
    var word := labels[0];
    if LabelFault(word) != NoError then LabelFault(word)
    else if |labels| == 1 then if dotSeen then NoError else ServerNameHasNoDot
    else if word == "" then ServerNameHasDotDot
    else if word[|word| - 1] == '-' then NameHasBadChars
    else Verdict(labels[1..], true)
  }

  // ----- the scan judges the labels

  lemma {:induction false} FindDotSkips(name: string, start: nat, i: nat)
    requires start <= i <= |name| && forall k | start <= k < i :: name[k] != '.'
    ensures FindDot(name, start) == FindDot(name, i)
    decreases i - start
  {
    if start < i {
      FindDotSkips(name, start + 1, i);
    }
  }

  lemma LabelsLead(name: string, start: nat)
    requires start <= |name|
    ensures var end := FindDot(name, start);
            && Labels(name, start)[0] == name[start..end]
            && (end == |name| ==> |Labels(name, start)| == 1)
            && (end < |name| ==> |Labels(name, start)| > 1 && Labels(name, start)[1..] == Labels(name, end + 1))
  {
  }

  /** The character at `k` is fine in a label that starts at `start`. */
  predicate GoodAt(name: string, start: nat, k: nat)
    requires start <= k < |name|
  {
    name[k] != '.' && if k == start then IsAlpha(name[k]) else IsAlnum(name[k]) || name[k] == '-'
  }

  /** The fault of the label `name[start..end]` when everything before `i` is good. */
  lemma FaultFrom(name: string, start: nat, i: nat, end: nat)
    requires start <= i <= end <= |name| && i - start <= 63
    requires forall k | start <= k < i :: GoodAt(name, start, k)
    requires forall k | start <= k < end :: name[k] != '.'
    ensures i == end ==> LabelFault(name[start..end]) == NoError
    ensures i < end && i - start < 63 && !GoodAt(name, start, i) ==> LabelFault(name[start..end]) == NameHasBadChars
    ensures i < end && i - start == 63 ==> LabelFault(name[start..end]) == NameTooLong
  {
    var word := name[start..end];
    assert forall k | 0 <= k < |word| :: LabelChar(word, k) <==> GoodAt(name, start, start + k);
    if i < end && i - start < 63 && !GoodAt(name, start, i) {
      assert !LabelChar(word, i - start);
    }
  }

  /** The scan at the end of a good label, once it judges what follows the dot. */
  lemma ScanAtLabelEnd(name: string, start: nat, i: nat, dots: nat)
    requires start <= i <= |name| && i == FindDot(name, start)
    requires LabelFault(name[start..i]) == NoError
    requires start < i < |name| && name[i - 1] != '-'
             ==> Scan(name, i + 1, dots + 1, 0) == Verdict(Labels(name, i + 1), true)
    ensures Scan(name, i, dots, i - start) == Verdict(Labels(name, start), dots > 0)
  {
    LabelsLead(name, start);
    var word := name[start..i];
    assert i > start ==> word[|word| - 1] == name[i - 1];
  }

  /** The scan inside a label: on to the next character, or stopped by this one. */
  lemma ScanInLabel(name: string, start: nat, i: nat, dots: nat)
    requires start <= i < |name| && i - start <= 63 && name[i] != '.'
    ensures Scan(name, i, dots, i - start)
         == if i - start == 63 then NameTooLong
            else if GoodAt(name, start, i) then Scan(name, i + 1, dots, i + 1 - start)
            else NameHasBadChars
  {
  }

  /** A faulty first label decides the verdict. */
  lemma VerdictOfFault(name: string, start: nat, dotSeen: bool)
    requires start <= |name| && LabelFault(name[start..FindDot(name, start)]) != NoError
    ensures Verdict(Labels(name, start), dotSeen) == LabelFault(name[start..FindDot(name, start)])
  {
    LabelsLead(name, start);
  }

  lemma {:induction false} ScanJudgesLabels(name: string, start: nat, i: nat, dots: nat)
    requires start <= i <= |name| && i - start <= 63
    requires forall k | start <= k < i :: GoodAt(name, start, k)
    ensures Scan(name, i, dots, i - start) == Verdict(Labels(name, start), dots > 0)
    decreases |name| - i
  {
    var end := FindDot(name, start);
    assert forall k | start <= k < i :: GoodAt(name, start, k) && name[k] != '.';
    FindDotSkips(name, start, i);
    FaultFrom(name, start, i, end);
    if i == end {
      if i < |name| && i > start && name[i - 1] != '-' {
        ScanJudgesLabels(name, i + 1, i + 1, dots + 1);
      }
      ScanAtLabelEnd(name, start, i, dots);
    } else {
      ScanInLabel(name, start, i, dots);
      if i - start < 63 && GoodAt(name, start, i) {
        ScanJudgesLabels(name, start, i + 1, dots);
      } else {
        VerdictOfFault(name, start, dots > 0);
      }
    }
  }

  lemma {:induction false} VerdictIsGrammar(labels: seq<string>, dotSeen: bool)
    requires labels != []
    ensures Verdict(labels, dotSeen) == NoError <==> (dotSeen || |labels| >= 2) && GoodLabels(labels)
    decreases |labels|
  {
    assert LabelFault(labels[0]) == NoError <==> LabelText(labels[0]);
    if |labels| > 1 {
      var rest := labels[1..];
      VerdictIsGrammar(rest, true);
      assert forall k | 0 < k < |labels| :: labels[k] == rest[k - 1];
      assert forall k | 0 <= k < |rest| - 1 :: rest[k] == labels[k + 1];
      assert rest[|rest| - 1] == labels[|labels| - 1];
    }
  }

  /** The scan accepts exactly the grammar, and reports exactly the first faulty word otherwise. */
  lemma ScanIsGrammar(name: string)
    ensures Scan(name, 0, 0, 0) == Verdict(Labels(name), false)
    ensures |name| <= 255 && Scan(name, 0, 0, 0) == NoError <==> Grammar(name)
  {
    ScanJudgesLabels(name, 0, 0, 0);
    VerdictIsGrammar(Labels(name), false);
  }

  function LastLabel(name: string, start: nat): string
    requires start <= |name|
  {
    var labels := Labels(name, start);
    labels[|labels| - 1]
  }

  lemma LastLabelStep(name: string, start: nat)
    requires start <= |name|
    ensures var end := FindDot(name, start);
            LastLabel(name, start) == if end == |name| then name[start..end] else LastLabel(name, end + 1)
  {
    LabelsLead(name, start);
    var end := FindDot(name, start);
    if end < |name| {
      var labels, rest := Labels(name, start), Labels(name, end + 1);
      assert labels[|labels| - 1] == rest[|rest| - 1];
    }
  }

  /** The last label is what follows the last dot, or all of the text when there is none. */
  lemma {:induction false} LastLabelEndsName(name: string, start: nat)
    requires start <= |name|
    ensures var from := |name| - |LastLabel(name, start)|;
            && start <= from <= |name| && LastLabel(name, start) == name[from..|name|]
            && (from > start ==> name[from - 1] == '.')
    decreases |name| - start
  {
    LastLabelStep(name, start);
    var end := FindDot(name, start);
    if end < |name| {
      LastLabelEndsName(name, end + 1);
      assert LastLabel(name, start) == LastLabel(name, end + 1);
    } else {
      assert LastLabel(name, start) == name[start..|name|];
    }
  }

  lemma LastLabelDecides(labels: seq<string>, name: string, from: nat)
    requires |labels| >= 2 && GoodLabels(labels)
    requires 0 < from <= |name| && labels[|labels| - 1] == name[from..|name|] && name[from - 1] == '.'
    ensures (forall k | 0 <= k < |labels| :: InnerLabel(labels[k]))
            <==> name[|name| - 1] != '.' && name[|name| - 1] != '-'
  {
    var last := labels[|labels| - 1];
    assert last != "" ==> last[|last| - 1] == name[|name| - 1] && LabelChar(last, |last| - 1);
    assert (forall k | 0 <= k < |labels| :: InnerLabel(labels[k])) <==> InnerLabel(last);
  }

  /** Section 3.5 of RFC 1034 treats the last label like the others; the scan does not. Among
      accepted names the two agree exactly on those not ending in a dot or a hyphen. */
  lemma FinalLabelIsLax(name: string)
    requires Grammar(name)
    ensures name != ""
    ensures (forall k | 0 <= k < |Labels(name)| :: InnerLabel(Labels(name)[k]))
            <==> name[|name| - 1] != '.' && name[|name| - 1] != '-'
  {
    LabelsLead(name, 0);
    LastLabelStep(name, 0);
    var end := FindDot(name, 0);
    assert end < |name|;
    LastLabelEndsName(name, end + 1);
    var last, from := LastLabel(name, 0), |name| - |LastLabel(name, 0)|;
    assert last == LastLabel(name, end + 1) == name[from..|name|];
    assert from > 0 && name[from - 1] == '.';
    LastLabelDecides(Labels(name), name, from);
  }

  /** A name the scan accepts and section 3.5 of RFC 1034 does not allow. */
  lemma HyphenEndIsAccepted()
    ensures Scan("a.b-", 0, 0, 0) == NoError && Labels("a.b-") == ["a", "b-"] && !InnerLabel("b-")
  {
    var name := "a.b-";
    assert FindDot(name, 0) == 1 && FindDot(name, 4) == 4 && FindDot(name, 2) == 4;
    assert Labels(name, 2) == [name[2..4]] && name[2..4] == "b-" && name[0..1] == "a";
    assert Scan(name, 4, 1, 2) == NoError && Scan(name, 2, 1, 0) == NoError;
  }
}
