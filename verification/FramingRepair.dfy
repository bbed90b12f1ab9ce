/** The framer with its one defect repaired: an unfinished line buffers only the unread tail of
    the chunk. Everything the original promises then holds however the stream is cut. */
module FramingRepair {
  import opened Text
  import opened Framing
  import opened MessageFormat
  import opened Irc2Protocol
  import opened WirePipeline

  /** `Feed` with `data.substr(pos)` in place of `data` where the scan runs out. */
  function FeedTail(queue: string, data: string, pos: nat := 0): Frames
    requires pos <= |data|
    decreases |data| - pos
  {
    var e := FindEol(data, pos);
    if e == |data| then Frames([], queue + data[pos..])
    else
      var line := queue + data[pos..e];
      var next := AfterEol(data, e);
      if next == |data| then Frames([line], "")
      else
        var rest := FeedTail("", data, next);
        Frames([line] + rest.lines, rest.queue)
  }

  function FeedTails(queue: string, chunks: seq<string>): Frames
    decreases |chunks|
  {
    if chunks == [] then Frames([], queue)
    else
      var first := FeedTail(queue, chunks[0]);
      var rest := FeedTails(first.queue, chunks[1..]);
      Frames(first.lines + rest.lines, rest.queue)
  }

  /** One chunk: the repaired framer is the octet-by-octet reading, lines and tail alike. */
  lemma {:induction false} FeedTailIsScan(f: Frames, data: string, pos: nat)
    requires pos <= |data|
    ensures var fed := FeedTail(f.queue, data, pos);
            Scan(f, data[pos..]) == Frames(f.lines + NonEmpty(fed.lines), fed.queue)
    decreases |data| - pos
  {
    var e := FindEol(data, pos);
    if e == |data| {
      assert data[pos..e] == data[pos..];
      ScanText(f, data[pos..]);
      assert f.lines + [] == f.lines;
    } else {
      ScanLine(f, data, pos);
      var line := f.queue + data[pos..e];
      var next := AfterEol(data, e);
      var g := Frames(f.lines + NonEmpty([line]), "");
      if next == |data| {
        assert data[next..] == "";
      } else {
        var rest := FeedTail("", data, next);
        FeedTailIsScan(g, data, next);
        NonEmptyAppend([line], rest.lines);
        ConcatAssoc(f.lines, NonEmpty([line]), NonEmpty(rest.lines));
      }
    }
  }

  lemma {:induction false} FeedTailsIsScan(f: Frames, chunks: seq<string>)
    ensures var fed := FeedTails(f.queue, chunks);
            Scan(f, Flatten(chunks)) == Frames(f.lines + NonEmpty(fed.lines), fed.queue)
    decreases |chunks|
  {
    if chunks == [] {
      assert f.lines + [] == f.lines;
    } else {
      var first := FeedTail(f.queue, chunks[0]);
      var rest := FeedTails(first.queue, chunks[1..]);
      var g := Frames(f.lines + NonEmpty(first.lines), first.queue);
      assert chunks[0][0..] == chunks[0];
      FeedTailIsScan(f, chunks[0], 0);
      ScanAppend(f, chunks[0], Flatten(chunks[1..]));
      FeedTailsIsScan(g, chunks[1..]);
      NonEmptyAppend(first.lines, rest.lines);
      ConcatAssoc(f.lines, NonEmpty(first.lines), NonEmpty(rest.lines));
    }
  }

  /** What the repaired framer makes of any run of reads, in terms of the stream alone. */
  lemma RepairedReading(chunks: seq<string>)
    ensures Visible(FeedTails("", chunks)) == Scan(START, Flatten(chunks))
  {
    FeedTailsIsScan(START, chunks);
    var lines := NonEmpty(FeedTails("", chunks).lines);
    assert [] + lines == lines;
  }

  /** Chunking invariance without conditions: visible lines and tail depend on the stream alone. */
  lemma RepairedChunkingInvariance(chunks: seq<string>, others: seq<string>)
    requires Flatten(chunks) == Flatten(others)
    ensures Visible(FeedTails("", chunks)) == Visible(FeedTails("", others))
  {
    RepairedReading(chunks);
    RepairedReading(others);
  }

  /** End to end without conditions: whatever block sizes drain the queue, exactly the messages
      sent are dispatched, in order, with nothing left over. */
  lemma RepairedEndToEnd(ms: seq<Outgoing>, amounts: seq<nat>)
    requires AllSendable(ms) && Withdraw(Stream(ms, EOL_CR_LF), amounts).left == ""
    ensures var fed := FeedTails("", Withdraw(Stream(ms, EOL_CR_LF), amounts).blocks);
            Dispatches(fed.lines) == Meants(ms) && fed.queue == ""
  {
    var stream := Stream(ms, EOL_CR_LF);
    var blocks := Withdraw(stream, amounts).blocks;
    var fed := FeedTails("", blocks);
    WithdrawConserves(stream, amounts);
    assert Flatten(blocks) + "" == Flatten(blocks);
    RepairedReading(blocks);
    ScanStream([], ms, EOL_CR_LF);
    DispatchesOfLines(ms);
    DispatchesIgnoreEmptyLines(fed.lines);
    assert [] + Lines(ms) == Lines(ms);
  }

  lemma {:induction false} EolIsFound(data: string, pos: nat)
    requires pos < |data| && IsEol(data[|data| - 1])
    ensures FindEol(data, pos) < |data|
    decreases |data| - pos
  {
    if pos < |data| - 1 {
      EolIsFound(data, pos + 1);
    }
  }

  lemma {:induction false} RepairAgreesWithin(queue: string, data: string, pos: nat)
    requires pos < |data| && IsEol(data[|data| - 1])
    ensures FeedTail(queue, data, pos) == Feed(queue, data, pos)
    decreases |data| - pos
  {
    EolIsFound(data, pos);
    var next := AfterEol(data, FindEol(data, pos));
    if next < |data| {
      RepairAgreesWithin("", data, next);
    }
  }

  /** The repair changes nothing where the code was right. */
  lemma RepairAgreesOnWholeLines(queue: string, data: string)
    requires WholeLines(data)
    ensures FeedTail(queue, data) == Feed(queue, data)
  {
    if HasEol(data) {
      RepairAgreesWithin(queue, data, 0);
    } else {
      var e := FindEol(data, 0);
      assert e < |data| ==> HasEol(data);
      assert data[0..] == data;
    }
  }
}
