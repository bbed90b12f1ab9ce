/** The incremental line framer of `LibCLBP::Input::handleInput` as functions:
    what the code does with one chunk (`Feed`), and the chunk-blind reference
    reading of a whole octet stream (`Scan`). */
module Framing {
  import opened Text

  predicate IsEol(c: char) {
    c == '\r' || c == '\n'
  }

  predicate HasEol(s: string) {
    exists i | 0 <= i < |s| :: IsEol(s[i])
  }

  /** `find_first_of(EOL_CR_LF, pos)`, with `|data|` standing for npos. */
  function FindEol(data: string, pos: nat): (e: nat)
    requires pos <= |data|
    ensures pos <= e <= |data|
    ensures !HasEol(data[pos..e])
    ensures e < |data| ==> IsEol(data[e])
    decreases |data| - pos
  {
    if pos == |data| || IsEol(data[pos]) then pos
    else
      var e := FindEol(data, pos + 1);
      assert data[pos..e] == [data[pos]] + data[pos + 1..e];
      e
  }

  /** Where scanning resumes after the terminator at `e`: CR LF counts as one. */
  function AfterEol(data: string, e: nat): (next: nat)
    requires e < |data|
    ensures e < next <= |data|
  {
    if data[e] == '\r' && e + 1 < |data| && data[e + 1] == '\n' then e + 2 else e + 1
  }

  datatype Frames = Frames(lines: seq<string>, queue: string)

  /** The code: lines handed to the parser and the input queue left behind by one call
      whose scan has reached `pos`. An unfinished line buffers all of `data`. */
  function Feed(queue: string, data: string, pos: nat := 0): Frames
    requires pos <= |data|
    decreases |data| - pos
  {
    var e := FindEol(data, pos);
    if e == |data| then Frames([], queue + data)
    else
      var line := queue + data[pos..e];
      var next := AfterEol(data, e);
      if next == |data| then Frames([line], "")
      else
        var rest := Feed("", data, next);
        Frames([line] + rest.lines, rest.queue)
  }

  /** The code's next step once `done` lines have been delivered. */
  lemma FeedAdvance(done: seq<string>, queue: string, data: string, pos: nat)
    requires pos <= |data| && FindEol(data, pos) < |data|
    ensures var e := FindEol(data, pos);
            var next := AfterEol(data, e);
            var all := done + Feed(queue, data, pos).lines;
            var sofar := done + [queue + data[pos..e]];
            if next == |data| then all == sofar && Feed(queue, data, pos).queue == ""
            else all == sofar + Feed("", data, next).lines
                 && Feed(queue, data, pos).queue == Feed("", data, next).queue
  {
    var e := FindEol(data, pos);
    var next := AfterEol(data, e);
    var line := queue + data[pos..e];
    if next < |data| {
      var rest := Feed("", data, next).lines;
      ConcatAssoc(done, [line], rest);
    }
  }

  /** The code over a run of reads. */
  function FeedAll(queue: string, chunks: seq<string>): Frames
    decreases |chunks|
  {
    if chunks == [] then Frames([], queue)
    else
      var first := Feed(queue, chunks[0]);
      var rest := FeedAll(first.queue, chunks[1..]);
      Frames(first.lines + rest.lines, rest.queue)
  }

  /** The lines that can reach the message handler: empty ones never do. */
  function NonEmpty(lines: seq<string>): seq<string> {
    if lines == [] then []
    else (if lines[0] == "" then [] else [lines[0]]) + NonEmpty(lines[1..])
  }

  function Visible(f: Frames): Frames {
    Frames(NonEmpty(f.lines), f.queue)
  }

  /** Reference reading, one octet at a time: every CR or LF ends a line, empty lines vanish. */
  function ScanOctet(f: Frames, c: char): Frames {
    if !IsEol(c) then Frames(f.lines, f.queue + [c])
    else Frames(f.lines + NonEmpty([f.queue]), "")
  }

  function Scan(f: Frames, stream: string): Frames
    decreases |stream|
  {
    if stream == "" then f else Scan(ScanOctet(f, stream[0]), stream[1..])
  }

  const START := Frames([], "")

  /** The chunks the code treats properly: no terminator at all, or one at the very end. */
  predicate WholeLines(chunk: string) {
    HasEol(chunk) ==> IsEol(chunk[|chunk| - 1])
  }

  lemma NonEmptyOne(line: string)
    ensures NonEmpty([line]) == if line == "" then [] else [line]
  {
    assert NonEmpty([line][1..]) == [];
  }

  lemma {:induction false} NonEmptyAppend(a: seq<string>, b: seq<string>)
    ensures NonEmpty(a + b) == NonEmpty(a) + NonEmpty(b)
  {
    if a == [] {
      assert a + b == b;
    } else {
      NonEmptyAppend(a[1..], b);
      var head := if a[0] == "" then [] else [a[0]];
      assert (a + b)[0] == a[0] && (a + b)[1..] == a[1..] + b;
      assert NonEmpty(a + b) == head + NonEmpty(a[1..] + b);
      ConcatAssoc(head, NonEmpty(a[1..]), NonEmpty(b));
    }
  }

  lemma {:induction false} ScanAppend(f: Frames, a: string, b: string)
    ensures Scan(f, a + b) == Scan(Scan(f, a), b)
    decreases |a|
  {
    if a == "" {
      assert a + b == b;
    } else {
      ScanAppend(ScanOctet(f, a[0]), a[1..], b);
      assert (a + b)[1..] == a[1..] + b;
    }
  }

  lemma {:induction false} ScanText(f: Frames, text: string)
    requires !HasEol(text)
    ensures Scan(f, text) == Frames(f.lines, f.queue + text)
    decreases |text|
  {
    if text == "" {
      assert f.queue + text == f.queue;
    } else {
      assert !IsEol(text[0]);
      assert !HasEol(text[1..]) by {
        assert forall i | 0 <= i < |text| - 1 :: text[1..][i] == text[i + 1];
      }
      ScanText(ScanOctet(f, text[0]), text[1..]);
      assert f.queue + [text[0]] + text[1..] == f.queue + text;
    }
  }

  lemma ScanNext(f: Frames, data: string, pos: nat)
    requires pos < |data|
    ensures Scan(f, data[pos..]) == Scan(ScanOctet(f, data[pos]), data[pos + 1..])
  {
    assert data[pos..][0] == data[pos] && data[pos..][1..] == data[pos + 1..];
  }

  /** A terminator ends the line queued so far; the second octet of CR LF adds nothing. */
  lemma ScanTerminator(g: Frames, data: string, e: nat)
    requires e < |data| && IsEol(data[e])
    ensures Scan(g, data[e..]) == Scan(Frames(g.lines + NonEmpty([g.queue]), ""), data[AfterEol(data, e)..])
  {
    ScanNext(g, data, e);
    if AfterEol(data, e) == e + 2 {
      var h := Frames(g.lines + NonEmpty([g.queue]), "");
      ScanNext(h, data, e + 1);
      NonEmptyOne("");
      assert h.lines + [] == h.lines;
    }
  }

  /** The reference after the next terminator found by the code. */
  lemma ScanLine(f: Frames, data: string, pos: nat)
    requires pos <= |data| && FindEol(data, pos) < |data|
    ensures var e := FindEol(data, pos);
            Scan(f, data[pos..])
            == Scan(Frames(f.lines + NonEmpty([f.queue + data[pos..e]]), ""), data[AfterEol(data, e)..])
  {
    var e := FindEol(data, pos);
    ScanText(f, data[pos..e]);
    ScanAppend(f, data[pos..e], data[e..]);
    assert data[pos..] == data[pos..e] + data[e..];
    ScanTerminator(Frames(f.lines, f.queue + data[pos..e]), data, e);
  }

  /** Within one chunk the code's lines always agree with the reference. */
  lemma {:induction false} FeedLines(f: Frames, data: string, pos: nat)
    requires pos <= |data|
    ensures Scan(f, data[pos..]).lines == f.lines + NonEmpty(Feed(f.queue, data, pos).lines)
    decreases |data| - pos
  {
    var e := FindEol(data, pos);
    if e == |data| {
      assert data[pos..e] == data[pos..];
      ScanText(f, data[pos..]);
    } else {
      ScanLine(f, data, pos);
      var line := f.queue + data[pos..e];
      var next := AfterEol(data, e);
      var g := Frames(f.lines + NonEmpty([line]), "");
      if next == |data| {
        assert data[next..] == "";
      } else {
        var rest := Feed("", data, next);
        FeedLines(g, data, next);
        NonEmptyAppend([line], rest.lines);
      }
    }
  }

  /** The queue the code leaves, and the tail the reference leaves, by the shape of the chunk. */
  lemma {:induction false} FeedQueue(f: Frames, data: string, pos: nat)
    requires pos < |data|
    ensures var code := Feed(f.queue, data, pos).queue;
            var tail := Scan(f, data[pos..]).queue;
            if !HasEol(data[pos..]) then code == f.queue + data && tail == f.queue + data[pos..]
            else if IsEol(data[|data| - 1]) then code == "" && tail == ""
            else code == data && tail != ""
    decreases |data| - pos
  {
    var e := FindEol(data, pos);
    assert data[pos..][|data| - 1 - pos] == data[|data| - 1];
    if e == |data| {
      assert data[pos..e] == data[pos..];
      ScanText(f, data[pos..]);
    } else {
      assert IsEol(data[pos..][e - pos]);
      ScanLine(f, data, pos);
      var next := AfterEol(data, e);
      if next == |data| {
        assert data[next..] == "";
      } else {
        FeedQueue(Frames(f.lines + NonEmpty([f.queue + data[pos..e]]), ""), data, next);
        assert data[next..][|data| - 1 - next] == data[|data| - 1];
        assert "" + data == data;
      }
    }
  }
}
