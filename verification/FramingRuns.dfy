/** The framer over whole runs of reads: when it is independent of chunking, and only then. */
module FramingRuns {
  import opened Text
  import opened Framing

  /** The code's state `f` after one more read. */
  function ReadChunk(f: Frames, data: string): Frames {
    var fed := Feed(f.queue, data);
    Frames(f.lines + NonEmpty(fed.lines), fed.queue)
  }

  /** The code's visible lines and queue after reading `chunks` from state `f`. */
  function Read(f: Frames, chunks: seq<string>): Frames {
    var run := FeedAll(f.queue, chunks);
    Frames(f.lines + NonEmpty(run.lines), run.queue)
  }

  lemma ReadOne(f: Frames, chunks: seq<string>)
    requires chunks != []
    ensures Read(f, chunks) == Read(ReadChunk(f, chunks[0]), chunks[1..])
  {
    var first := Feed(f.queue, chunks[0]);
    var rest := FeedAll(first.queue, chunks[1..]);
    NonEmptyAppend(first.lines, rest.lines);
    ConcatAssoc(f.lines, NonEmpty(first.lines), NonEmpty(rest.lines));
  }

  predicate Clean(f: Frames) {
    !HasEol(f.queue) && forall i | 0 <= i < |f.lines| :: !HasEol(f.lines[i])
  }

  /** A terminator inside a line or a queue: the mark a mishandled chunk leaves. */
  predicate Tainted(f: Frames) {
    HasEol(f.queue) || exists i | 0 <= i < |f.lines| :: HasEol(f.lines[i])
  }

  /** Code and reference deliver the same number of lines; where they differ, the code's is tainted. */
  predicate Related(code: Frames, ref: Frames) {
    && |code.lines| == |ref.lines|
    && (forall i | 0 <= i < |code.lines| :: code.lines[i] == ref.lines[i] || HasEol(code.lines[i]))
    && (code.queue == ref.queue || (HasEol(code.queue) && ref.queue != ""))
  }

  lemma HasEolAppend(a: string, b: string)
    ensures HasEol(a + b) <==> HasEol(a) || HasEol(b)
  {
    var s := a + b;
    if i :| 0 <= i < |a| && IsEol(a[i]) {
      assert s[i] == a[i];
    } else if i :| 0 <= i < |b| && IsEol(b[i]) {
      assert s[|a| + i] == b[i];
    } else if i :| 0 <= i < |s| && IsEol(s[i]) {
      assert s[i] == if i < |a| then a[i] else b[i - |a|];
    }
  }

  lemma {:induction false} ScanClean(f: Frames, stream: string)
    requires Clean(f)
    ensures Clean(Scan(f, stream))
    decreases |stream|
  {
    if stream != "" {
      HasEolAppend(f.queue, [stream[0]]);
      NonEmptyOne(f.queue);
      assert HasEol([stream[0]]) <==> IsEol([stream[0]][0]);
      ScanClean(ScanOctet(f, stream[0]), stream[1..]);
    }
  }

  /** One read whose first terminator is at `e`: both sides finish their queue and go on alike. */
  lemma LineThenRest(f: Frames, data: string)
    requires FindEol(data, 0) < |data|
    ensures var e := FindEol(data, 0);
            var next := AfterEol(data, e);
            var shared := NonEmpty(Feed("", data, next).lines);
            var head := f.lines + NonEmpty([f.queue + data[..e]]);
            && Scan(f, data).lines == head + shared
            && f.lines + NonEmpty(Feed(f.queue, data).lines) == head + shared
  {
    var e := FindEol(data, 0);
    var next := AfterEol(data, e);
    var line := f.queue + data[0..e];
    assert data[0..e] == data[..e] && data[0..] == data;
    ScanLine(f, data, 0);
    FeedLines(f, data, 0);
    FeedLines(Frames(f.lines + NonEmpty([line]), ""), data, next);
  }

  lemma UnfinishedKeepsRelation(code: Frames, ref: Frames, data: string)
    requires Related(code, ref) && !HasEol(data)
    ensures Related(ReadChunk(code, data), Scan(ref, data))
    ensures Tainted(code) ==> Tainted(ReadChunk(code, data))
  {
    HasEolAppend(code.queue, data);
    assert FindEol(data, 0) == |data|;
    assert code.lines + [] == code.lines;
    ScanText(ref, data);
  }

  lemma LinesKeepRelation(code: seq<string>, ref: seq<string>, line: string, expected: string, shared: seq<string>)
    requires |code| == |ref| && forall i | 0 <= i < |code| :: code[i] == ref[i] || HasEol(code[i])
    requires line == expected || (HasEol(line) && expected != "")
    ensures var code' := code + NonEmpty([line]) + shared;
            var ref' := ref + NonEmpty([expected]) + shared;
            && |code'| == |ref'|
            && (forall i | 0 <= i < |code'| :: code'[i] == ref'[i] || HasEol(code'[i]))
            && (HasEol(line) || (exists i | 0 <= i < |code| :: HasEol(code[i]))
                ==> exists i | 0 <= i < |code'| :: HasEol(code'[i]))
  {
    NonEmptyOne(line);
    NonEmptyOne(expected);
    var code' := code + NonEmpty([line]) + shared;
    if HasEol(line) {
      assert code'[|code|] == line;
    } else if i :| 0 <= i < |code| && HasEol(code[i]) {
      assert code'[i] == code[i];
    }
  }

  lemma FinishedKeepsRelation(code: Frames, ref: Frames, data: string)
    requires Related(code, ref) && HasEol(data)
    ensures Related(ReadChunk(code, data), Scan(ref, data))
    ensures Tainted(code) || !WholeLines(data) ==> Tainted(ReadChunk(code, data))
  {
    var e := FindEol(data, 0);
    assert data[0..|data|] == data && data[0..] == data;
    LineThenRest(code, data);
    LineThenRest(ref, data);
    FeedQueue(code, data, 0);
    FeedQueue(ref, data, 0);
    HasEolAppend(code.queue, data[..e]);
    var shared := NonEmpty(Feed("", data, AfterEol(data, e)).lines);
    LinesKeepRelation(code.lines, ref.lines, code.queue + data[..e], ref.queue + data[..e], shared);
  }

  lemma ReadKeepsRelation(code: Frames, ref: Frames, data: string)
    requires Related(code, ref)
    ensures Related(ReadChunk(code, data), Scan(ref, data))
    ensures Tainted(code) || !WholeLines(data) ==> Tainted(ReadChunk(code, data))
  {
    if HasEol(data) {
      FinishedKeepsRelation(code, ref, data);
    } else {
      UnfinishedKeepsRelation(code, ref, data);
    }
  }

  lemma {:induction false} RunKeepsRelation(code: Frames, ref: Frames, chunks: seq<string>)
    requires Related(code, ref) && Clean(ref)
    ensures Related(Read(code, chunks), Scan(ref, Flatten(chunks)))
    ensures Clean(Scan(ref, Flatten(chunks)))
    ensures Tainted(code) || (exists k | 0 <= k < |chunks| :: !WholeLines(chunks[k])) ==> Tainted(Read(code, chunks))
    decreases |chunks|
  {
    ScanClean(ref, Flatten(chunks));
    if chunks == [] {
      assert code.lines + [] == code.lines;
    } else {
      ReadOne(code, chunks);
      ReadKeepsRelation(code, ref, chunks[0]);
      ScanClean(ref, chunks[0]);
      ScanAppend(ref, chunks[0], Flatten(chunks[1..]));
      RunKeepsRelation(ReadChunk(code, chunks[0]), Scan(ref, chunks[0]), chunks[1..]);
      if k :| 0 <= k < |chunks| && !WholeLines(chunks[k]) {
        assert k == 0 || !WholeLines(chunks[1..][k - 1]);
      }
    }
  }

  lemma {:induction false} WholeLinesRun(f: Frames, chunks: seq<string>)
    requires forall k | 0 <= k < |chunks| :: WholeLines(chunks[k])
    ensures Read(f, chunks) == Scan(f, Flatten(chunks))
    decreases |chunks|
  {
    if chunks == [] {
      assert f.lines + [] == f.lines;
    } else {
      var data := chunks[0];
      ReadOne(f, chunks);
      FeedLines(f, data, 0);
      assert data[0..] == data;
      if data != "" {
        FeedQueue(f, data, 0);
      } else {
        assert f.queue + "" == f.queue;
      }
      ScanAppend(f, data, Flatten(chunks[1..]));
      WholeLinesRun(ReadChunk(f, chunks[0]), chunks[1..]);
    }
  }

  /** Chunking invariance, exactly: the visible lines and the buffered tail depend only on the
      concatenation of the chunks iff no chunk carries text after its last terminator.
      Splits inside CR LF are covered. */
  lemma ChunkingInvariance(chunks: seq<string>)
    ensures Read(START, chunks) == Scan(START, Flatten(chunks))
            <==> forall k | 0 <= k < |chunks| :: WholeLines(chunks[k])
  {
    if forall k | 0 <= k < |chunks| :: WholeLines(chunks[k]) {
      WholeLinesRun(START, chunks);
    } else {
      RunKeepsRelation(START, START, chunks);
    }
  }

  /** Two ways of cutting one stream give the same visible lines and tail when both cut properly. */
  lemma SameStreamSameLines(chunks: seq<string>, others: seq<string>)
    requires Flatten(chunks) == Flatten(others)
    requires forall k | 0 <= k < |chunks| :: WholeLines(chunks[k])
    requires forall k | 0 <= k < |others| :: WholeLines(others[k])
    ensures Read(START, chunks) == Read(START, others)
  {
    ChunkingInvariance(chunks);
    ChunkingInvariance(others);
  }

  /** A concrete chunk the code mishandles: one read "LF B" leaves the whole chunk queued. */
  lemma UnreadTailIsBufferedTwice()
    ensures Read(START, ["\nB"]) == Frames([], "\nB")
    ensures Scan(START, "\nB") == Frames([], "B")
  {
    var data := "\nB";
    assert FindEol(data, 1) == 2 by { assert FindEol(data, 2) == 2; }
    assert "" + data[0..0] == "" && "" + data == data;
    assert Feed("", data, 1) == Frames([], data);
    assert Feed("", data).lines == [""] + [];
    NonEmptyOne("");
    assert [data][1..] == [];
    assert data[1..] == "B" && "" + "B" == "B";
    assert Scan(START, data) == Scan(START, "B");
  }

  function TextOnly(s: string): string {
    if s == "" then "" else (if IsEol(s[0]) then "" else [s[0]]) + TextOnly(s[1..])
  }

  /** The reference loses and invents nothing: its lines and tail are the stream without
      its terminators, and every line is non-empty. */
  lemma {:induction false} ScanConserves(f: Frames, stream: string)
    requires forall i | 0 <= i < |f.lines| :: f.lines[i] != ""
    ensures var g := Scan(f, stream);
            && Flatten(g.lines) + g.queue == Flatten(f.lines) + f.queue + TextOnly(stream)
            && forall i | 0 <= i < |g.lines| :: g.lines[i] != ""
    decreases |stream|
  {
    if stream != "" {
      var g := ScanOctet(f, stream[0]);
      NonEmptyOne(f.queue);
      FlattenSnoc(f.lines, f.queue);
      assert f.lines + [] == f.lines;
      assert Flatten(g.lines) + g.queue
             == Flatten(f.lines) + f.queue + (if IsEol(stream[0]) then "" else [stream[0]]);
      ScanConserves(g, stream[1..]);
    }
  }
}
