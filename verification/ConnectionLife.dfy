/** How long a connection lives and what its counters mean, read off the events of a run. */
module ConnectionLife {
  import opened Text
  import opened ConnectionRuns

  /** The octets event `i` read, if it was a read that succeeded on a connected connection in the list. */
  function HeardAt(c: Conn, block: nat, es: seq<Event>, i: nat): string
    requires i < |es|
  {
    var before := After(c, block, es, i);
    if before.open && before.connected && es[i].Readable? then es[i].data.GetOr("") else ""
  }

  function AllHeard(c: Conn, block: nat, es: seq<Event>, k: nat): string
    requires k <= |es|
  {
    if k == 0 then "" else AllHeard(c, block, es, k - 1) + HeardAt(c, block, es, k - 1)
  }

  /** Received octets are those read, one for one, over any run. */
  lemma {:induction false} ReceivedIsWhatWasHeard(c: Conn, block: nat, es: seq<Event>, k: nat)
    requires k <= |es|
    ensures After(c, block, es, k).receivedBytes == c.receivedBytes + |AllHeard(c, block, es, k)|
  {
    if k > 0 {
      ReceivedIsWhatWasHeard(c, block, es, k - 1);
    }
  }

  /** Event `i` reads something and its handling says goodbye. */
  predicate SaysGoodbye(c: Conn, block: nat, es: seq<Event>, i: nat)
    requires i < |es|
  {
    HeardAt(c, block, es, i) != "" && es[i].reaction.goodbye
  }

  lemma ConnectedStep(c: Conn, block: nat, es: seq<Event>, i: nat)
    requires i < |es|
    ensures After(c, block, es, i + 1).connected
            <==> After(c, block, es, i).connected && !SaysGoodbye(c, block, es, i)
  {
    var before := After(c, block, es, i);
    assert After(c, block, es, i + 1) == Step(before, block, es[i]);
  }

  /** Connected for as long as nothing read said goodbye. */
  lemma {:induction false} ConnectedExactly(c: Conn, block: nat, es: seq<Event>, k: nat)
    requires k <= |es|
    ensures After(c, block, es, k).connected
            <==> c.connected && forall i | 0 <= i < k :: !SaysGoodbye(c, block, es, i)
  {
    if k > 0 {
      ConnectedExactly(c, block, es, k - 1);
      ConnectedStep(c, block, es, k - 1);
    }
  }

  /** Event `i` is a turn at reading that fails, or comes after a goodbye. */
  predicate Ends(c: Conn, block: nat, es: seq<Event>, i: nat)
    requires i < |es|
  {
    && es[i].Readable?
    && (es[i].data.None? || !c.connected || exists j | 0 <= j < i :: SaysGoodbye(c, block, es, j))
  }

  /** A connection stays in the list until its first turn at reading that fails or comes after a
      goodbye; from then on nothing is read, written or queued. */
  lemma {:induction false} ListedExactly(c: Conn, block: nat, es: seq<Event>, k: nat)
    requires k <= |es|
    ensures After(c, block, es, k).open <==> c.open && forall i | 0 <= i < k :: !Ends(c, block, es, i)
  {
    if k > 0 {
      ListedExactly(c, block, es, k - 1);
      ConnectedExactly(c, block, es, k - 1);
      var before := After(c, block, es, k - 1);
      assert Ends(c, block, es, k - 1) <==> es[k - 1].Readable? && (es[k - 1].data.None? || !before.connected);
      assert After(c, block, es, k) == Step(before, block, es[k - 1]);
    }
  }

  lemma {:induction false} ClosedForGood(c: Conn, block: nat, es: seq<Event>, i: nat, k: nat)
    requires i <= k <= |es| && !After(c, block, es, i).open
    ensures After(c, block, es, k) == After(c, block, es, i)
    decreases k - i
  {
    if i < k {
      ClosedForGood(c, block, es, i, k - 1);
    }
  }

  /** What a successful read queues: the protocol's output and, after a hand-over, its successor's,
      behind everything already there; an empty read queues nothing. */
  lemma ReadQueues(c: Conn, block: nat, data: string, output: string, successor: Option<string>, goodbye: bool)
    requires c.open && c.connected
    ensures var r := Step(c, block, Readable(Some(data), Reaction(output, successor, goodbye)));
            && r.open && r.sentBytes == c.sentBytes
            && r.queue == (if data == "" then c.queue
                           else match successor
                             case None => c.queue + output
                             case Some(text) => (c.queue + output) + text)
            && (r.interest <==> c.interest || r.queue != "")
  {
    if successor.Some? {
      ConcatAssoc(c.queue, output, successor.value);
    } else {
      assert output + "" == output;
    }
  }

  /** Written octets: those of the block taken from the front of the queue that the socket accepts. */
  lemma WriteCounts(c: Conn, block: nat, accepted: nat)
    requires c.open && c.interest
    ensures var r := Step(c, block, Writable(accepted));
            var n := if |c.queue| < block then |c.queue| else block;
            && r.queue == c.queue[n..] && r.receivedBytes == c.receivedBytes
            && r.sentBytes == c.sentBytes + (if accepted < n then accepted else n)
            && (r.interest <==> n < |c.queue|)
  {
    assert c.queue[..|c.queue|] == c.queue;
  }
}
