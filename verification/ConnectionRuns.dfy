/** What one connection and the descriptor sets of the main loop do over whole runs: the
    reading and writing halves of `Connection`, and output queued by other connections. */
module ConnectionRuns {
  import opened Text

  /** What the protocol object did with one chunk of input: the output it queued, the output
      its successor queued if it handed the connection over, and whether it called `goodbye`. */
  datatype Reaction = Reaction(output: string, handOver: Option<string>, goodbye: bool) {
    function Produced(): string {
      output + handOver.GetOr("")
    }
  }

  datatype Event =
    | Readable(data: Option<string>, reaction: Reaction)
      // the descriptor is ready for reading; the socket read may fail
    | Writable(accepted: nat)
      // the descriptor is ready for writing; the socket takes at most this many octets
    | Foreign(text: string)
      // another connection's handler queues output here

  /** `interest` is the connection's bit in `outFDSET`, `open` its place in the connection list. */
  datatype Conn = Conn(queue: string, connected: bool, interest: bool, open: bool,
                       sentBytes: nat, receivedBytes: nat)

  function Read(c: Conn, data: string, reaction: Reaction): Conn {
    var heard := if data == "" then c else
      c.(receivedBytes := c.receivedBytes + |data|,
         queue := c.queue + reaction.Produced(),
         connected := c.connected && !reaction.goodbye);
    heard.(interest := c.interest || heard.queue != "")
  }

  function Write(c: Conn, block: nat, accepted: nat): Conn {
    var n := Min(block, |c.queue|);
    c.(queue := c.queue[n..],
       sentBytes := c.sentBytes + Min(accepted, n),
       interest := c.interest && c.queue[n..] != "")
  }

  function Step(c: Conn, block: nat, e: Event): Conn {
    if !c.open then c
    else match e
      case Readable(data, reaction) =>
        if c.connected && data.Some? then Read(c, data.value, reaction)
        else c.(interest := false, open := false)
      case Writable(accepted) => if c.interest then Write(c, block, accepted) else c
      case Foreign(text) => c.(queue := c.queue + text)
  }

  function After(c: Conn, block: nat, es: seq<Event>, k: nat): Conn
    requires k <= |es|
  {
    if k == 0 then c else Step(After(c, block, es, k - 1), block, es[k - 1])
  }

  // ----- what went in and what came out -----

  /** Everything a step appends to the queue. */
  function Enqueued(c: Conn, e: Event): string {
    if !c.open then ""
    else match e
      case Readable(data, reaction) =>
        if c.connected && data.Some? && data.value != "" then reaction.Produced() else ""
      case Writable(_) => ""
      case Foreign(text) => text
  }

  /** The block a step withdraws from the queue. */
  function Withdrawn(c: Conn, block: nat, e: Event): string {
    if c.open && e.Writable? && c.interest then c.queue[..Min(block, |c.queue|)] else ""
  }

  /** The part of that block the socket took; the rest is gone, not queued again. */
  function Delivered(c: Conn, block: nat, e: Event): string {
    var out := Withdrawn(c, block, e);
    if e.Writable? then out[..Min(e.accepted, |out|)] else ""
  }

  function AllEnqueued(c: Conn, block: nat, es: seq<Event>, k: nat): string
    requires k <= |es|
  {
    if k == 0 then ""
    else AllEnqueued(c, block, es, k - 1) + Enqueued(After(c, block, es, k - 1), es[k - 1])
  }

  function AllWithdrawn(c: Conn, block: nat, es: seq<Event>, k: nat): string
    requires k <= |es|
  {
    if k == 0 then ""
    else AllWithdrawn(c, block, es, k - 1) + Withdrawn(After(c, block, es, k - 1), block, es[k - 1])
  }

  function AllDelivered(c: Conn, block: nat, es: seq<Event>, k: nat): string
    requires k <= |es|
  {
    if k == 0 then ""
    else AllDelivered(c, block, es, k - 1) + Delivered(After(c, block, es, k - 1), block, es[k - 1])
  }

  lemma StepConserves(c: Conn, block: nat, e: Event)
    ensures Withdrawn(c, block, e) + Step(c, block, e).queue == c.queue + Enqueued(c, e)
  {
  }

  lemma MoveAcross(out: string, queue: string, sent: string, left: string, enqueued: string, more: string)
    requires out + queue == enqueued && sent + left == queue + more
    ensures (out + sent) + left == enqueued + more
  {
    ConcatAssoc(out, sent, left);
    ConcatAssoc(out, queue, more);
  }

  /** Output conservation, hand-overs, failed reads and closing connections included. */
  lemma {:induction false} OutputIsConserved(c: Conn, block: nat, es: seq<Event>, k: nat)
    requires k <= |es|
    ensures AllWithdrawn(c, block, es, k) + After(c, block, es, k).queue
         == c.queue + AllEnqueued(c, block, es, k)
  {
    if k == 0 {
      assert c.queue + "" == c.queue == "" + c.queue;
    } else {
      OutputIsConserved(c, block, es, k - 1);
      var before := After(c, block, es, k - 1);
      StepConserves(before, block, es[k - 1]);
      MoveAcross(AllWithdrawn(c, block, es, k - 1), before.queue, Withdrawn(before, block, es[k - 1]),
                 After(c, block, es, k).queue, c.queue + AllEnqueued(c, block, es, k - 1),
                 Enqueued(before, es[k - 1]));
      ConcatAssoc(c.queue, AllEnqueued(c, block, es, k - 1), Enqueued(before, es[k - 1]));
    }
  }

  /** The socket took the whole block withdrawn at step i, if any. */
  predicate CompleteAt(c: Conn, block: nat, es: seq<Event>, i: nat)
    requires i < |es|
  {
    var before := After(c, block, es, i);
    |Delivered(before, block, es[i])| == |Withdrawn(before, block, es[i])|
  }

  ghost predicate WritesComplete(c: Conn, block: nat, es: seq<Event>, k: nat)
    requires k <= |es|
  {
    forall i: nat :: i < k ==> CompleteAt(c, block, es, i)
  }

  lemma DeliveredStep(c: Conn, block: nat, e: Event)
    ensures |Delivered(c, block, e)| <= |Withdrawn(c, block, e)|
    ensures |Delivered(c, block, e)| == |Withdrawn(c, block, e)|
            ==> Delivered(c, block, e) == Withdrawn(c, block, e)
    ensures Step(c, block, e).sentBytes == c.sentBytes + |Delivered(c, block, e)|
  {
  }

  lemma {:induction false} DeliveredIsShorter(c: Conn, block: nat, es: seq<Event>, k: nat)
    requires k <= |es|
    ensures |AllDelivered(c, block, es, k)| <= |AllWithdrawn(c, block, es, k)|
    ensures |AllDelivered(c, block, es, k)| == |AllWithdrawn(c, block, es, k)|
            <==> WritesComplete(c, block, es, k)
    ensures After(c, block, es, k).sentBytes == c.sentBytes + |AllDelivered(c, block, es, k)|
  {
    if k > 0 {
      DeliveredIsShorter(c, block, es, k - 1);
      DeliveredStep(After(c, block, es, k - 1), block, es[k - 1]);
      assert CompleteAt(c, block, es, k - 1)
          <==> |Delivered(After(c, block, es, k - 1), block, es[k - 1])|
               == |Withdrawn(After(c, block, es, k - 1), block, es[k - 1])|;
    }
  }

  lemma {:induction false} CompleteWritesDeliverAll(c: Conn, block: nat, es: seq<Event>, k: nat)
    requires k <= |es| && WritesComplete(c, block, es, k)
    ensures AllDelivered(c, block, es, k) == AllWithdrawn(c, block, es, k)
  {
    if k > 0 {
      CompleteWritesDeliverAll(c, block, es, k - 1);
      assert CompleteAt(c, block, es, k - 1);
      DeliveredStep(After(c, block, es, k - 1), block, es[k - 1]);
    }
  }

  /** The peer's stream and the queue make up everything queued exactly when no write was short:
      what a short write leaves over is lost. */
  lemma PeerSeesEverythingExactly(c: Conn, block: nat, es: seq<Event>)
    ensures WritesComplete(c, block, es, |es|)
            <==> AllDelivered(c, block, es, |es|) + After(c, block, es, |es|).queue
                 == c.queue + AllEnqueued(c, block, es, |es|)
    ensures After(c, block, es, |es|).sentBytes == c.sentBytes + |AllWithdrawn(c, block, es, |es|)|
            <==> WritesComplete(c, block, es, |es|)
  {
    OutputIsConserved(c, block, es, |es|);
    DeliveredIsShorter(c, block, es, |es|);
    if WritesComplete(c, block, es, |es|) {
      CompleteWritesDeliverAll(c, block, es, |es|);
    }
    if AllDelivered(c, block, es, |es|) + After(c, block, es, |es|).queue
       == c.queue + AllEnqueued(c, block, es, |es|) {
      assert |AllDelivered(c, block, es, |es|) + After(c, block, es, |es|).queue|
          == |AllWithdrawn(c, block, es, |es|) + After(c, block, es, |es|).queue|;
    }
  }

  /** A write the socket refuses altogether: the block is gone from the queue, and nobody gets it. */
  lemma RefusedBlockIsLost(c: Conn, block: nat)
    requires c.open && c.interest && c.queue != "" && block > 0
    ensures var es := [Writable(0)];
            && !WritesComplete(c, block, es, 1)
            && AllDelivered(c, block, es, 1) == "" && |After(c, block, es, 1).queue| < |c.queue|
  {
    var es := [Writable(0)];
    assert After(c, block, es, 0) == c;
    assert !CompleteAt(c, block, es, 0);
    assert AllDelivered(c, block, es, 1) == "" + Delivered(c, block, es[0]);
  }

  // ----- write interest -----

  predicate Synced(c: Conn) {
    c.interest <==> c.open && c.queue != ""
  }

  /** Output waiting on a live connection that the poller was never told about. */
  predicate Stalled(c: Conn) {
    c.open && c.queue != "" && !c.interest
  }

  /** Nothing ever asks for write readiness without output to write. */
  predicate InterestIsJustified(c: Conn) {
    c.interest ==> c.open && c.queue != ""
  }

  lemma {:induction false} InterestStaysJustified(c: Conn, block: nat, es: seq<Event>, k: nat)
    requires k <= |es| && InterestIsJustified(c)
    ensures InterestIsJustified(After(c, block, es, k))
  {
    if k > 0 {
      InterestStaysJustified(c, block, es, k - 1);
    }
  }

  /** Event i queued output from outside on an idle connection, and its own input has not
      been served since. */
  ghost predicate WakeUpLostAt(c: Conn, block: nat, es: seq<Event>, k: nat, i: nat)
    requires i < k <= |es|
  {
    && es[i].Foreign? && es[i].text != ""
    && After(c, block, es, i).queue == ""
    && forall j :: i < j < k ==> !es[j].Readable?
  }

  ghost predicate WakeUpLost(c: Conn, block: nat, es: seq<Event>, k: nat)
    requires k <= |es|
  {
    exists i: nat :: i < k && WakeUpLostAt(c, block, es, k, i)
  }

  /** One step of the characterisation below. */
  lemma WakeUpLostStep(c: Conn, block: nat, es: seq<Event>, k: nat)
    requires 0 < k <= |es|
    ensures WakeUpLost(c, block, es, k)
         <==> || (es[k - 1].Foreign? && es[k - 1].text != "" && After(c, block, es, k - 1).queue == "")
              || (!es[k - 1].Readable? && WakeUpLost(c, block, es, k - 1))
  {
    if es[k - 1].Foreign? && es[k - 1].text != "" && After(c, block, es, k - 1).queue == "" {
      assert WakeUpLostAt(c, block, es, k, k - 1);
    }
    if !es[k - 1].Readable? && WakeUpLost(c, block, es, k - 1) {
      var i: nat :| i < k - 1 && WakeUpLostAt(c, block, es, k - 1, i);
      assert WakeUpLostAt(c, block, es, k, i);
    }
    if WakeUpLost(c, block, es, k) {
      var i: nat :| i < k && WakeUpLostAt(c, block, es, k, i);
      if i < k - 1 {
        assert WakeUpLostAt(c, block, es, k - 1, i);
      }
    }
  }

  /** On a live connection the bit and the queue disagree exactly when a wake-up was lost. */
  lemma {:induction false} StallsExactlyWhenWakeUpLost(c: Conn, block: nat, es: seq<Event>, k: nat)
    requires k <= |es| && Synced(c)
    ensures After(c, block, es, k).open
            ==> (Stalled(After(c, block, es, k)) <==> WakeUpLost(c, block, es, k))
    ensures Synced(After(c, block, es, k)) <==> !Stalled(After(c, block, es, k))
  {
    if k > 0 {
      StallsExactlyWhenWakeUpLost(c, block, es, k - 1);
      WakeUpLostStep(c, block, es, k);
      InterestStaysJustified(c, block, es, k - 1);
    }
  }

  /** Output from outside reaches an idle connection: it is stalled, and stays so however often the
      descriptor is ready for writing. */
  lemma IdleConnectionStalls(c: Conn, block: nat, text: string, writes: seq<nat>)
    requires Synced(c) && c.open && c.queue == "" && text != ""
    ensures var es := [Foreign(text)] + seq(|writes|, i requires 0 <= i < |writes| => Writable(writes[i]));
            Stalled(After(c, block, es, |es|))
  {
    var es := [Foreign(text)] + seq(|writes|, i requires 0 <= i < |writes| => Writable(writes[i]));
    StallsUnderWrites(c, block, text, es, |es|);
  }

  lemma {:induction false} StallsUnderWrites(c: Conn, block: nat, text: string, es: seq<Event>, k: nat)
    requires Synced(c) && c.open && c.queue == "" && text != ""
    requires 0 < k <= |es| && es[0] == Foreign(text) && forall i :: 0 < i < |es| ==> es[i].Writable?
    ensures Stalled(After(c, block, es, k))
  {
    if k == 1 {
      assert After(c, block, es, 0) == c;
    } else {
      StallsUnderWrites(c, block, text, es, k - 1);
    }
  }

  /** A connection that only its own steps feed is never stalled. */
  lemma OwnStepsKeepInterest(c: Conn, block: nat, es: seq<Event>)
    requires Synced(c) && forall e :: e in es ==> !e.Foreign?
    ensures Synced(After(c, block, es, |es|))
  {
    StallsExactlyWhenWakeUpLost(c, block, es, |es|);
  }

  // ----- draining -----

  function Sends(c: Conn, block: nat, count: nat): Conn {
    if count == 0 then c else Step(Sends(c, block, count - 1), block, Writable(block))
  }

  function Ceil(n: nat, d: nat): nat
    requires d > 0
  {
    (n + d - 1) / d
  }

  /** After any number of full writes, exactly that many blocks are gone, and the bit is still
      set exactly when something is left. With a block size of zero nothing ever leaves. */
  lemma {:induction false} SendsDrain(c: Conn, block: nat, count: nat)
    requires c.open && Synced(c)
    ensures Sends(c, block, count).queue == c.queue[Min(count * block, |c.queue|)..]
    ensures Sends(c, block, count).interest <==> count * block < |c.queue|
    ensures Sends(c, block, count).sentBytes == c.sentBytes + Min(count * block, |c.queue|)
    ensures Sends(c, block, count).open
  {
    if count > 0 {
      SendsDrain(c, block, count - 1);
      assert count * block == (count - 1) * block + block;
    }
  }

  lemma CeilExactly(n: nat, d: nat, k: nat)
    requires d > 0
    ensures k * d < n <==> k < Ceil(n, d)
  {
    var q := Ceil(n, d);
    assert q * d <= n + d - 1 < q * d + d;
    if k < q {
      assert (k + 1) * d <= q * d;
    } else {
      assert q * d <= k * d;
    }
  }

  lemma DrainsInCeilSteps(c: Conn, block: nat, count: nat)
    requires c.open && Synced(c) && block > 0
    ensures Sends(c, block, count).interest <==> count < Ceil(|c.queue|, block)
    ensures Sends(c, block, count).queue == "" <==> count >= Ceil(|c.queue|, block)
  {
    SendsDrain(c, block, count);
    CeilExactly(|c.queue|, block, count);
  }
}
