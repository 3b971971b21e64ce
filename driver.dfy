/** The driver object of cli/index.js. Its fields are the state the JavaScript object and its
    collaborators change: the bytes fed to the decoder since its last reset, what was done to
    codec and port, the registered 'data' observers and the state of every Promise a command
    method returned.
    Each method is proved to step the state exactly as the Protocol functions say. */
module Driver {
  import opened Commands
  import opened Protocol

  class Alpheus {
    /** The codec's frame encoder (`link.encoder.encode`). */
    const encode: Encoder
    var decoderBuf: seq<Byte>
    var log: seq<Event>
    var observers: seq<nat>
    var outcomes: seq<Status>

    function Snapshot(): State
      reads this
    {
      State(decoderBuf, log, observers, outcomes)
    }

    predicate Valid()
      reads this
    {
      Protocol.Valid(Snapshot())
    }

    /** A driver bound to an open, idle link. */
    constructor (encode: Encoder)
      ensures Valid() && this.encode == encode && Snapshot() == Initial()
    {
      this.encode := encode;
      decoderBuf, log, observers, outcomes := [], [], [], [];
    }

    /** sendTag: encode the frame and write it; on error reject at once, otherwise register one
        single-shot observer. Returns the id of the new outcome. */
    method SendTag(command: int, args: seq<int>, result: WriteResult) returns (id: nat)
      requires Valid()
      modifies this
      ensures Valid() && id == |old(outcomes)|
      ensures Snapshot() == Send(old(Snapshot()), encode, command, args, result)
    {
      var packet := encode(command, args);
      id := |outcomes|;
      match result {
        case WriteFailed(e) =>
          log := log + [PacketWritten(packet, false)];
          outcomes := outcomes + [Rejected(TransportFailure(e))];
        case WriteOk =>
          log := log + [PacketWritten(packet, true)];
          observers := observers + [id];
          outcomes := outcomes + [Awaiting];
      }
      SendSpec(old(Snapshot()), encode, command, args, result);
    }

    /** reset: clear the decoder, then send tag 0 with no arguments. */
    method Reset(result: WriteResult) returns (id: nat)
      requires Valid()
      modifies this
      ensures Valid() && id == |old(outcomes)|
      ensures Snapshot() == Issue(old(Snapshot()), encode, Command.Reset, result)
    {
      decoderBuf := [];
      log := log + [DecoderCleared];
      id := SendTag(TagReset, [], result);
    }

    method Start(result: WriteResult) returns (id: nat)
      requires Valid()
      modifies this
      ensures Valid() && id == |old(outcomes)|
      ensures Snapshot() == Issue(old(Snapshot()), encode, Command.Start, result)
    {
      id := SendTag(TagStart, [], result);
    }

    method UpdateClock(clockSource: int, prescaler: int, result: WriteResult) returns (id: nat)
      requires Valid()
      modifies this
      ensures Valid() && id == |old(outcomes)|
      ensures Snapshot() == Issue(old(Snapshot()), encode, Command.UpdateClock(clockSource, prescaler), result)
    {
      id := SendTag(TagUpdateClock, [clockSource, prescaler], result);
    }

    method UpdateTrigger(triggerConfig: int, result: WriteResult) returns (id: nat)
      requires Valid()
      modifies this
      ensures Valid() && id == |old(outcomes)|
      ensures Snapshot() == Issue(old(Snapshot()), encode, Command.UpdateTrigger(triggerConfig), result)
    {
      id := SendTag(TagUpdateTrigger, [triggerConfig], result);
    }

    /** updateSlot: split delay and pulse into low and high bytes, then send tag 5. */
    method UpdateSlot(slot: int, delay: int, pulse: int, result: WriteResult) returns (id: nat)
      requires Valid()
      modifies this
      ensures Valid() && id == |old(outcomes)|
      ensures Snapshot() == Issue(old(Snapshot()), encode, Command.UpdateSlot(slot, delay, pulse), result)
    {
      var delayLow := LoByte(delay);
      var delayHigh := HiByte(delay);
      var pulseLow := LoByte(pulse);
      var pulseHigh := HiByte(pulse);
      id := SendTag(TagUpdateSlot, [slot, delayLow, delayHigh, pulseLow, pulseHigh], result);
    }

    /** Inbound bytes piped into the decoder. */
    method Receive(bytes: seq<Byte>)
      requires Valid()
      modifies this
      ensures Valid()
      ensures Snapshot() == Feed(old(Snapshot()), bytes)
    {
      decoderBuf := decoderBuf + bytes;
    }

    /** The codec emits a 'data' frame: every `once` listener is removed and then called in
        registration order; each settles its Promise with the frame's verdict. */
    method DeliverFrame(frame: Frame)
      requires Valid()
      modifies this
      ensures Valid()
      ensures Snapshot() == Deliver(old(Snapshot()), frame)
    {
      var listeners := observers;
      observers := [];
      var verdict := Answer(frame);
      var i := 0;
      while i < |listeners|
        invariant 0 <= i <= |listeners|
        invariant observers == [] && decoderBuf == old(decoderBuf) && log == old(log)
        invariant |outcomes| == |old(outcomes)|
        invariant forall k :: 0 <= k < |listeners| ==> listeners[k] < |outcomes|
        invariant forall id :: 0 <= id < |outcomes| ==>
                    outcomes[id] == if id in listeners[..i] then verdict else old(outcomes)[id]
      {
        assert listeners[..i + 1] == listeners[..i] + [listeners[i]];
        outcomes := outcomes[listeners[i] := verdict];
        i := i + 1;
      }
      assert listeners[..i] == listeners;
      DeliverSpec(old(Snapshot()), frame);
    }
  }
}
