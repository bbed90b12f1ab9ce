/** The `Connection` object, the main loop's descriptor sets and connection list, and the
    protocol object whose output queue survives a hand-over. */
module Connections {
  import opened Text
  import opened ConnectionRuns
  import Irc2Protocol

  class Daemon {
    var inFDSET: set<nat>
    var outFDSET: set<nat>
    var connections: set<Connection>
    var receivedBytes: nat

    constructor ()
      ensures inFDSET == {} && outFDSET == {} && connections == {} && receivedBytes == 0
    {
      inFDSET, outFDSET, connections, receivedBytes := {}, {}, {}, 0;
    }
  }

  class Connection {
    const daemon: Daemon
    /** The socket: its descriptor and its read block size. */
    const fd: nat
    const blockSize: nat
    var protocol: Irc2Protocol.Output
    var connected: bool
    var sentBytes: nat
    var receivedBytes: nat

    constructor (daemon: Daemon, fd: nat, blockSize: nat, protocol: Irc2Protocol.Output, socketOkay: bool)
      ensures this.daemon == daemon && this.fd == fd && this.blockSize == blockSize
      ensures this.protocol == protocol && connected == socketOkay
      ensures sentBytes == 0 && receivedBytes == 0
    {
      this.daemon, this.fd, this.blockSize, this.protocol := daemon, fd, blockSize, protocol;
      connected, sentBytes, receivedBytes := socketOkay, 0, 0;
    }

    ghost function State(): Conn
      reads this, protocol, daemon
    {
      Conn(protocol.outputQueue, connected, fd in daemon.outFDSET, this in daemon.connections,
           sentBytes, receivedBytes)
    }

    /** No other connection's bit or place in the list changes. */
    twostate predicate OthersUntouched()
      reads daemon
    {
      && daemon.outFDSET - {fd} == old(daemon.outFDSET) - {fd}
      && daemon.inFDSET - {fd} == old(daemon.inFDSET) - {fd}
      && daemon.connections - {this} == old(daemon.connections) - {this}
    }

    method Goodbye()
      modifies this`connected
      ensures !connected
    {
      connected := false;
    }

    /** `protocol->handleInput(line)`: queue output, perhaps hand the queue over to a new
        protocol object (which may queue its own), perhaps call `goodbye`. */
    method React(reaction: Reaction)
      modifies this`protocol, this`connected, protocol
      ensures protocol == old(protocol) || fresh(protocol)
      ensures protocol.outputQueue == old(protocol.outputQueue) + reaction.Produced()
      ensures connected == (old(connected) && !reaction.goodbye)
    {
      protocol.OutputRaw(reaction.output);
      if reaction.handOver.Some? {
        var successor := new Irc2Protocol.Output.Migrate(protocol.outputQueue, protocol.eolChars);
        ConcatAssoc(old(protocol.outputQueue), reaction.output, reaction.handOver.value);
        successor.OutputRaw(reaction.handOver.value);
        protocol := successor;
      } else {
        assert reaction.output + "" == reaction.output;
      }
      if reaction.goodbye {
        Goodbye();
      }
    }

    method HandleInput(data: Option<string>, reaction: Reaction) returns (ok: bool)
      modifies this, protocol, daemon
      ensures protocol == old(protocol) || fresh(protocol)
      ensures ok <==> old(connected) && data.Some?
      ensures State() == if ok then Read(old(State()), data.value, reaction) else old(State())
      ensures daemon.receivedBytes == old(daemon.receivedBytes) + (receivedBytes - old(receivedBytes))
      ensures daemon.inFDSET == old(daemon.inFDSET)
      ensures OthersUntouched()
    {
      if !connected {
        return false;
      }
      if data.None? {
        return false;
      }
      var line := data.value;
      if line != "" {
        receivedBytes := receivedBytes + |line|;
        daemon.receivedBytes := daemon.receivedBytes + |line|;
        React(reaction);
      }
      var more := protocol.MoreOutput();
      if more {
        daemon.outFDSET := daemon.outFDSET + {fd};
      }
      return true;
    }

    /** The socket takes `accepted` octets of the block at most, and says how many it took. */
    method SendOutput(accepted: nat) returns (block: string)
      modifies this`sentBytes, protocol, daemon`outFDSET
      ensures block == old(protocol.outputQueue)[..Min(blockSize, |old(protocol.outputQueue)|)]
      ensures State() == Write(old(State()), blockSize, accepted)
      ensures OthersUntouched()
    {
      block := protocol.WithdrawOutput(blockSize);
      assert old(protocol.outputQueue)[..|block|] == block;
      assert old(protocol.outputQueue)[|block|..] == protocol.outputQueue;
      sentBytes := sentBytes + Min(accepted, |block|);
      var more := protocol.MoreOutput();
      if !more {
        daemon.outFDSET := daemon.outFDSET - {fd};
      }
    }

    /** One connection's turn in the main loop, its descriptor being ready for reading. */
    method ServeReadable(data: Option<string>, reaction: Reaction)
      requires this in daemon.connections
      modifies this, protocol, daemon
      ensures protocol == old(protocol) || fresh(protocol)
      ensures State() == Step(old(State()), blockSize, Readable(data, reaction))
      ensures daemon.inFDSET == if this in daemon.connections then old(daemon.inFDSET) else old(daemon.inFDSET) - {fd}
      ensures daemon.receivedBytes == old(daemon.receivedBytes) + (receivedBytes - old(receivedBytes))
      ensures OthersUntouched()
    {
      var ok := HandleInput(data, reaction);
      if !ok {
        daemon.inFDSET := daemon.inFDSET - {fd};
        daemon.outFDSET := daemon.outFDSET - {fd};
        daemon.connections := daemon.connections - {this};
      }
    }

    /** The same with its descriptor ready for writing: served only if its bit was set. */
    method ServeWritable(accepted: nat) returns (block: string)
      requires this in daemon.connections
      modifies this`sentBytes, protocol, daemon`outFDSET
      ensures block == Withdrawn(old(State()), blockSize, Writable(accepted))
      ensures State() == Step(old(State()), blockSize, Writable(accepted))
      ensures OthersUntouched()
    {
      block := "";
      if fd in daemon.outFDSET {
        block := SendOutput(accepted);
      }
    }

    /** Another connection's handler queues text here; nobody sets the bit. */
    method QueueFromOutside(text: string)
      requires this in daemon.connections
      modifies protocol
      ensures State() == Step(old(State()), blockSize, Foreign(text))
    {
      protocol.OutputRaw(text);
    }
  }
}
