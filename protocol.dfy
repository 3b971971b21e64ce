/** The request/response correlation of the driver's sendTag (cli/index.js), as a state
    machine over values. Every call of a command method creates one outcome (the state of the
    Promise it returns). A write that fails rejects that outcome at once; a write that succeeds
    registers a single-shot 'data' observer for it. The next frame the codec emits settles every
    registered observer, because an EventEmitter runs all `once` listeners of an event on its
    next emission and drops them. */
module Protocol {
  import opened Commands

  type Packet = seq<Byte>

  /** The frame encoder of the codec: uninterpreted, supplied by the caller. */
  type Encoder = (int, seq<int>) -> Packet

  /** A decoded inbound frame. */
  datatype Frame = Frame(tag: int, payload: seq<Byte>)

  /** The error object the serial port passes to a write callback. */
  datatype WriteError = WriteError(message: string)

  /** How the serial port completes one write. */
  datatype WriteResult = WriteOk | WriteFailed(error: WriteError)

  /** Why a command's outcome was rejected: the write error, or the answer frame verbatim. */
  datatype Failure = TransportFailure(error: WriteError) | DeviceFailure(answer: Frame)

  /** The state of one command's outcome. */
  datatype Status = Awaiting | Resolved | Rejected(reason: Failure)

  /** What the driver did to its collaborators, in order. */
  datatype Event = DecoderCleared | PacketWritten(packet: Packet, accepted: bool)

  /** decoderBuf: the bytes fed to the decoder since its last reset (how the decoder cuts
      frames out of them is not modelled); log: the driver's actions on codec and port;
      observers: ids of the outcomes with a registered 'data' observer, in registration order;
      outcomes: one entry per command issued, indexed by its id. */
  datatype State = State(decoderBuf: seq<Byte>, log: seq<Event>, observers: seq<nat>, outcomes: seq<Status>)

  /** An outcome awaits a frame exactly when its observer is registered; so with no observer
      registered nothing is pending. */
  predicate Valid(s: State)
    ensures Valid(s) && s.observers == [] ==> Awaiting !in s.outcomes
  {
    && (forall i :: 0 <= i < |s.observers| ==>
          s.observers[i] < |s.outcomes| && s.outcomes[s.observers[i]] == Awaiting)
    && (forall id :: 0 <= id < |s.outcomes| && s.outcomes[id] == Awaiting ==> id in s.observers)
  }

  function Initial(): (s: State)
    ensures Valid(s) && s.outcomes == [] && s.observers == []
  {
    State([], [], [], [])
  }

  /** How the observer reads the first frame after a send. */
  function Answer(frame: Frame): (st: Status)
    ensures st != Awaiting
    ensures st == Resolved <==> frame.tag == TagDone
    ensures st != Resolved ==> st == Rejected(DeviceFailure(frame))
  {
    if frame.tag == TagDone then Resolved else Rejected(DeviceFailure(frame))
  }

  /** sendTag: encode, write, then either reject with the write error or register an observer. */
  function Send(s: State, encode: Encoder, tag: int, args: seq<int>, result: WriteResult): (r: State)
    ensures Valid(s) ==> Valid(r)
    ensures |r.outcomes| == |s.outcomes| + 1 && r.outcomes[..|s.outcomes|] == s.outcomes
    ensures r.outcomes[|s.outcomes|] == Awaiting <==> result.WriteOk?
    ensures r.decoderBuf == s.decoderBuf
  {
    var packet := encode(tag, args);
    match result
    case WriteFailed(e) =>
      s.(log := s.log + [PacketWritten(packet, false)],
         outcomes := s.outcomes + [Rejected(TransportFailure(e))])
    case WriteOk =>
      s.(log := s.log + [PacketWritten(packet, true)],
         observers := s.observers + [|s.outcomes|],
         outcomes := s.outcomes + [Awaiting])
  }

  /** The codec emits a frame: every registered observer settles with it and is removed. */
  function Deliver(s: State, frame: Frame): (r: State)
    ensures Valid(s) ==> Quiet(r)
    ensures |r.outcomes| == |s.outcomes| && r.decoderBuf == s.decoderBuf && r.log == s.log
  {
    s.(observers := [],
       outcomes := seq(|s.outcomes|, id requires 0 <= id < |s.outcomes| =>
                         if id in s.observers then Answer(frame) else s.outcomes[id]))
  }

  /** Inbound bytes piped into the decoder: they extend its input and touch nothing else. */
  function Feed(s: State, bytes: seq<Byte>): (r: State)
    ensures r.observers == s.observers && r.outcomes == s.outcomes && r.log == s.log
    ensures Valid(s) ==> Valid(r)
    ensures |r.decoderBuf| == |s.decoderBuf| + |bytes|
    ensures r.decoderBuf[..|s.decoderBuf|] == s.decoderBuf && r.decoderBuf[|s.decoderBuf|..] == bytes
  {
    s.(decoderBuf := s.decoderBuf + bytes)
  }

  /** The codec's decoder.reset(): the decoder forgets every byte fed to it so far. */
  function ClearDecoder(s: State): (r: State)
    ensures r.decoderBuf == [] && r.log == s.log + [DecoderCleared]
    ensures r.observers == s.observers && r.outcomes == s.outcomes
    ensures Valid(s) ==> Valid(r)
  {
    s.(decoderBuf := [], log := s.log + [DecoderCleared])
  }

  /** One call of a public command method; reset() clears the decoder before sending. */
  function Issue(s: State, encode: Encoder, c: Command, result: WriteResult): (r: State)
    ensures Valid(s) ==> Valid(r)
    ensures |r.outcomes| == |s.outcomes| + 1 && r.outcomes[..|s.outcomes|] == s.outcomes
    ensures r.outcomes[|s.outcomes|] == Awaiting <==> result.WriteOk?
    ensures |r.log| > |s.log| && r.log[|r.log| - 1] == PacketWritten(encode(Encode(c).tag, Encode(c).args), result.WriteOk?)
  {
    var req := Encode(c);
    if c.Reset? then Send(ClearDecoder(s), encode, req.tag, req.args, result)
    else Send(s, encode, req.tag, req.args, result)
  }

  /** One thing that can happen on the link. */
  datatype Step = Call(command: Command, result: WriteResult) | Incoming(bytes: seq<Byte>) | Arrive(frame: Frame)

  function Apply(s: State, encode: Encoder, step: Step): State {
    match step
    case Call(c, result) => Issue(s, encode, c, result)
    case Incoming(bytes) => Feed(s, bytes)
    case Arrive(frame) => Deliver(s, frame)
  }

  function Run(s: State, encode: Encoder, steps: seq<Step>): State
    decreases |steps|
  {
    if steps == [] then s else Run(Apply(s, encode, steps[0]), encode, steps[1..])
  }

  lemma RunCons(s: State, encode: Encoder, step: Step, rest: seq<Step>)
    ensures Run(s, encode, [step] + rest) == Run(Apply(s, encode, step), encode, rest)
  {
    assert ([step] + rest)[0] == step && ([step] + rest)[1..] == rest;
  }

  // ---------------------------------------------------------------- one step

  /** A send adds exactly one outcome, leaves earlier outcomes and the decoder alone, and
      registers an observer for the new outcome if and only if the write succeeded. */
  lemma SendSpec(s: State, encode: Encoder, tag: int, args: seq<int>, result: WriteResult)
    requires Valid(s)
    ensures var r := Send(s, encode, tag, args, result);
      && Valid(r)
      && r.decoderBuf == s.decoderBuf
      && r.log == s.log + [PacketWritten(encode(tag, args), result.WriteOk?)]
      && |r.outcomes| == |s.outcomes| + 1 && r.outcomes[..|s.outcomes|] == s.outcomes
      && (|s.outcomes| in r.observers <==> result.WriteOk?)
      && (result.WriteOk? ==> r.observers == s.observers + [|s.outcomes|] && r.outcomes[|s.outcomes|] == Awaiting)
      && (result.WriteFailed? ==> r.observers == s.observers
                                  && r.outcomes[|s.outcomes|] == Rejected(TransportFailure(result.error)))
  {
  }

  /** A frame settles every awaiting outcome with Answer(frame), leaves settled outcomes as they
      were, and leaves no observer behind. */
  lemma DeliverSpec(s: State, frame: Frame)
    requires Valid(s)
    ensures var r := Deliver(s, frame);
      && Valid(r)
      && r.observers == [] && r.decoderBuf == s.decoderBuf && r.log == s.log
      && |r.outcomes| == |s.outcomes|
      && (forall id :: 0 <= id < |s.outcomes| ==>
            r.outcomes[id] == if s.outcomes[id] == Awaiting then Answer(frame) else s.outcomes[id])
  {
    var r := Deliver(s, frame);
    forall id | 0 <= id < |s.outcomes|
      ensures r.outcomes[id] == if s.outcomes[id] == Awaiting then Answer(frame) else s.outcomes[id]
    {
      if id in s.observers {
        var i :| 0 <= i < |s.observers| && s.observers[i] == id;
      }
    }
  }

  /** Every command method is a send; reset() also empties the decoder first. */
  lemma IssueSpec(s: State, encode: Encoder, c: Command, result: WriteResult)
    requires Valid(s)
    ensures var r := Issue(s, encode, c, result);
      && Valid(r)
      && r.decoderBuf == (if c.Reset? then [] else s.decoderBuf)
      && r.log == (if c.Reset? then s.log + [DecoderCleared] else s.log)
                  + [PacketWritten(encode(Encode(c).tag, Encode(c).args), result.WriteOk?)]
      && |r.outcomes| == |s.outcomes| + 1 && r.outcomes[..|s.outcomes|] == s.outcomes
      && (result.WriteOk? ==> r.observers == s.observers + [|s.outcomes|] && r.outcomes[|s.outcomes|] == Awaiting)
      && (result.WriteFailed? ==> r.observers == s.observers
                                  && r.outcomes[|s.outcomes|] == Rejected(TransportFailure(result.error)))
  {
    var req := Encode(c);
    if c.Reset? { SendSpec(ClearDecoder(s), encode, req.tag, req.args, result); }
    else { SendSpec(s, encode, req.tag, req.args, result); }
  }

  /** A frame that arrives while no observer is registered changes no outcome: the driver only
      hands it to the user callback. */
  lemma UnsolicitedFrameIgnored(s: State, frame: Frame)
    requires Valid(s) && s.observers == []
    ensures Deliver(s, frame) == s
  {
    DeliverSpec(s, frame);
  }

  lemma {:induction false} ApplyValid(s: State, encode: Encoder, step: Step)
    requires Valid(s)
    ensures Valid(Apply(s, encode, step))
    ensures |Apply(s, encode, step).outcomes| >= |s.outcomes|
  {
    match step
    case Call(c, result) =>
      IssueSpec(s, encode, c, result);
    case Incoming(bytes) =>
    case Arrive(frame) => DeliverSpec(s, frame);
  }

  lemma {:induction false} RunValid(s: State, encode: Encoder, steps: seq<Step>)
    requires Valid(s)
    ensures Valid(Run(s, encode, steps))
    ensures |Run(s, encode, steps).outcomes| >= |s.outcomes|
    decreases |steps|
  {
    if steps != [] {
      ApplyValid(s, encode, steps[0]);
      RunValid(Apply(s, encode, steps[0]), encode, steps[1..]);
    }
  }

  // ---------------------------------------------------------------- whole runs

  /** A settled outcome is final: no later call, byte or frame changes it. In particular only the
      first frame after a successful send is consulted. */
  lemma {:induction false} SettledIsFinal(s: State, encode: Encoder, steps: seq<Step>, id: nat)
    requires Valid(s) && id < |s.outcomes| && s.outcomes[id] != Awaiting
    ensures id < |Run(s, encode, steps).outcomes| && Run(s, encode, steps).outcomes[id] == s.outcomes[id]
    decreases |steps|
  {
    if steps != [] {
      var s1 := Apply(s, encode, steps[0]);
      match steps[0] {
        case Call(c, result) =>
          IssueSpec(s, encode, c, result);
        case Incoming(bytes) =>
        case Arrive(frame) => DeliverSpec(s, frame);
      }
      SettledIsFinal(s1, encode, steps[1..], id);
    }
  }

  /** Chunks of inbound bytes, piped into the decoder one after another. */
  function Feeds(chunks: seq<seq<Byte>>): (steps: seq<Step>)
    ensures |steps| == |chunks|
  {
    if chunks == [] then [] else [Incoming(chunks[0])] + Feeds(chunks[1..])
  }

  /** Bytes that do not complete a frame settle nothing and register nothing. */
  lemma {:induction false} FeedsKeep(s: State, encode: Encoder, chunks: seq<seq<Byte>>)
    ensures var r := Run(s, encode, Feeds(chunks));
      r.observers == s.observers && r.outcomes == s.outcomes && r.log == s.log
    decreases |chunks|
  {
    if chunks != [] {
      RunCons(s, encode, Incoming(chunks[0]), Feeds(chunks[1..]));
      FeedsKeep(Feed(s, chunks[0]), encode, chunks[1..]);
    }
  }

  /** One exchange: a command, the bytes of a frame as they trickle in, then the frame. The new
      command gets its write error or else the frame's answer; every command still awaiting an
      answer gets the same answer; settled ones stay as they were; nothing is left pending. */
  lemma Exchange(s: State, encode: Encoder, c: Command, result: WriteResult, chunks: seq<seq<Byte>>, frame: Frame)
    requires Valid(s)
    ensures var r := Run(s, encode, [Call(c, result)] + Feeds(chunks) + [Arrive(frame)]);
      && Quiet(r) && |r.outcomes| == |s.outcomes| + 1
      && r.outcomes[|s.outcomes|] == (if result.WriteOk? then Answer(frame) else Rejected(TransportFailure(result.error)))
      && forall id :: 0 <= id < |s.outcomes| ==>
           r.outcomes[id] == if s.outcomes[id] == Awaiting then Answer(frame) else s.outcomes[id]
  {
    var s1 := Issue(s, encode, c, result);
    IssueSpec(s, encode, c, result);
    var s2 := Run(s1, encode, Feeds(chunks));
    FeedsKeep(s1, encode, chunks);
    assert Valid(s2);
    DeliverSpec(s2, frame);
    RunCons(s, encode, Call(c, result), Feeds(chunks));
    RunAppend(s, encode, [Call(c, result)] + Feeds(chunks), [Arrive(frame)]);
    RunCons(s2, encode, Arrive(frame), []);
  }

  /** The outcome of a command whose write succeeded is decided by the first frame the decoder
      emits after it, however its bytes trickle in beforehand and whatever follows. */
  lemma FirstFrameDecides(s: State, encode: Encoder, c: Command, chunks: seq<seq<Byte>>, frame: Frame, later: seq<Step>)
    requires Valid(s)
    ensures var id := |s.outcomes|;
      var r := Run(s, encode, [Call(c, WriteOk)] + Feeds(chunks) + [Arrive(frame)] + later);
      id < |r.outcomes| && r.outcomes[id] == Answer(frame)
  {
    var head := [Call(c, WriteOk)] + Feeds(chunks) + [Arrive(frame)];
    Exchange(s, encode, c, WriteOk, chunks, frame);
    RunAppend(s, encode, head, later);
    RunValid(s, encode, head);
    SettledIsFinal(Run(s, encode, head), encode, later, |s.outcomes|);
  }

  /** A command whose write fails is rejected with the write error at once and for good: no
      observer is left for a later frame to settle. */
  lemma WriteFailureIsFinal(s: State, encode: Encoder, c: Command, e: WriteError, later: seq<Step>)
    requires Valid(s)
    ensures var id := |s.outcomes|;
      var s1 := Issue(s, encode, c, WriteFailed(e));
      && s1.observers == s.observers && id !in s1.observers
      && var r := Run(s1, encode, later);
         id < |r.outcomes| && r.outcomes[id] == Rejected(TransportFailure(e))
  {
    IssueSpec(s, encode, c, WriteFailed(e));
    SettledIsFinal(Issue(s, encode, c, WriteFailed(e)), encode, later, |s.outcomes|);
  }

  lemma {:induction false} RunAppend(s: State, encode: Encoder, a: seq<Step>, b: seq<Step>)
    ensures Run(s, encode, a + b) == Run(Run(s, encode, a), encode, b)
    decreases |a|
  {
    if a == [] {
      assert a + b == b;
    } else {
      assert a + b == [a[0]] + (a[1..] + b);
      RunCons(s, encode, a[0], a[1..] + b);
      assert a == [a[0]] + a[1..];
      RunCons(s, encode, a[0], a[1..]);
      RunAppend(Apply(s, encode, a[0]), encode, a[1..], b);
    }
  }

  /** What reaches the driver from the link between commands: bytes, or a frame the decoder emits. */
  datatype Inbound = Bytes(bytes: seq<Byte>) | Emitted(frame: Frame)

  function Inbounds(xs: seq<Inbound>): (steps: seq<Step>)
    ensures |steps| == |xs|
  {
    if xs == [] then [] else [if xs[0].Bytes? then Incoming(xs[0].bytes) else Arrive(xs[0].frame)] + Inbounds(xs[1..])
  }

  /** Nothing is pending: no observer is registered and every outcome is settled. */
  predicate Quiet(s: State) {
    s.observers == [] && Awaiting !in s.outcomes
  }

  /** Bytes and frames that reach the driver while nothing is pending change no outcome. */
  lemma {:induction false} InboundIgnored(s: State, encode: Encoder, xs: seq<Inbound>)
    requires Quiet(s)
    ensures var r := Run(s, encode, Inbounds(xs));
      Quiet(r) && r.outcomes == s.outcomes
    decreases |xs|
  {
    if xs != [] {
      var step := if xs[0].Bytes? then Incoming(xs[0].bytes) else Arrive(xs[0].frame);
      RunCons(s, encode, step, Inbounds(xs[1..]));
      if xs[0].Emitted? {
        UnsolicitedFrameIgnored(s, xs[0].frame);
      }
      InboundIgnored(Apply(s, encode, step), encode, xs[1..]);
    }
  }

  /** One awaited exchange of a caller that serialises its commands: the command and how its
      write completes, the bytes of the answer as they trickle in, the answer frame, then any
      further bytes and frames that arrive before the next command. */
  datatype Round = Round(command: Command, result: WriteResult, chunks: seq<seq<Byte>>, answer: Frame, burst: seq<Inbound>)

  function RoundOf(rd: Round): seq<Step> {
    [Call(rd.command, rd.result)] + Feeds(rd.chunks) + [Arrive(rd.answer)] + Inbounds(rd.burst)
  }

  /** The outcome a round decides: the write error, or else what its answer frame says. */
  function Expected(rd: Round): (st: Status)
    ensures st != Awaiting
    ensures rd.result.WriteFailed? ==> st == Rejected(TransportFailure(rd.result.error))
    ensures rd.result.WriteOk? ==> st == Answer(rd.answer)
  {
    match rd.result
    case WriteFailed(e) => Rejected(TransportFailure(e))
    case WriteOk => Answer(rd.answer)
  }

  function RoundSteps(rounds: seq<Round>): seq<Step> {
    if rounds == [] then [] else RoundOf(rounds[0]) + RoundSteps(rounds[1..])
  }

  /** The outcomes the rounds decide, in order. */
  function Outcomes(rounds: seq<Round>): (sts: seq<Status>)
    ensures |sts| == |rounds|
  {
    if rounds == [] then [] else [Expected(rounds[0])] + Outcomes(rounds[1..])
  }

  lemma {:induction false} OutcomesAt(rounds: seq<Round>)
    ensures forall i :: 0 <= i < |rounds| ==> Outcomes(rounds)[i] == Expected(rounds[i])
    decreases |rounds|
  {
    if rounds != [] {
      var tail := Outcomes(rounds[1..]);
      assert Outcomes(rounds) == [Expected(rounds[0])] + tail;
      OutcomesAt(rounds[1..]);
      forall i | 1 <= i < |rounds| ensures Outcomes(rounds)[i] == Expected(rounds[i]) {
        assert Outcomes(rounds)[i] == tail[i - 1];
        assert rounds[1..][i - 1] == rounds[i];
      }
    }
  }

  /** With nothing pending, an exchange adds exactly the outcome its round decides. */
  lemma CallThenAnswer(s: State, encode: Encoder, rd: Round)
    requires Quiet(s)
    ensures var r := Run(s, encode, [Call(rd.command, rd.result)] + Feeds(rd.chunks) + [Arrive(rd.answer)]);
      Quiet(r) && r.outcomes == s.outcomes + [Expected(rd)]
  {
    Exchange(s, encode, rd.command, rd.result, rd.chunks, rd.answer);
  }

  /** One serialised round adds exactly the outcome it decides and leaves nothing pending. */
  lemma OneRound(s: State, encode: Encoder, rd: Round)
    requires Quiet(s)
    ensures var r := Play(s, encode, rd);
      Quiet(r) && r.outcomes == s.outcomes + [Expected(rd)]
  {
    var head := [Call(rd.command, rd.result)] + Feeds(rd.chunks) + [Arrive(rd.answer)];
    CallThenAnswer(s, encode, rd);
    InboundIgnored(Run(s, encode, head), encode, rd.burst);
    RunAppend(s, encode, head, Inbounds(rd.burst));
  }

  /** The state after one round. */
  function Play(s: State, encode: Encoder, rd: Round): State {
    Run(s, encode, RoundOf(rd))
  }

  /** The state after each round in turn. */
  function Serve(s: State, encode: Encoder, rounds: seq<Round>): State
    decreases |rounds|
  {
    if rounds == [] then s else Serve(Play(s, encode, rounds[0]), encode, rounds[1..])
  }

  /** Running the rounds' steps one after another is serving the rounds in turn. */
  lemma {:induction false} RunRounds(s: State, encode: Encoder, rounds: seq<Round>)
    ensures Run(s, encode, RoundSteps(rounds)) == Serve(s, encode, rounds)
    decreases |rounds|
  {
    if rounds != [] {
      var first, rest := RoundOf(rounds[0]), RoundSteps(rounds[1..]);
      assert RoundSteps(rounds) == first + rest;
      RunAppend(s, encode, first, rest);
      RunRounds(Run(s, encode, first), encode, rounds[1..]);
    }
  }

  /** Serving quiet rounds appends exactly the outcomes they decide. */
  lemma {:induction false} ServeRounds(s: State, encode: Encoder, rounds: seq<Round>)
    requires Quiet(s)
    ensures var r := Serve(s, encode, rounds);
      Quiet(r) && r.outcomes == s.outcomes + Outcomes(rounds)
    decreases |rounds|
  {
    if rounds == [] {
      assert s.outcomes + [] == s.outcomes;
    } else {
      var s1 := Play(s, encode, rounds[0]);
      OneRound(s, encode, rounds[0]);
      assert Serve(s, encode, rounds) == Serve(s1, encode, rounds[1..]);
      ServeRounds(s1, encode, rounds[1..]);
      var a, x, b := s.outcomes, Expected(rounds[0]), Outcomes(rounds[1..]);
      assert Outcomes(rounds) == [x] + b;
      assert s1.outcomes == a + [x];
      assert (a + [x]) + b == a + ([x] + b);
    }
  }

  /** A caller that awaits each command before issuing the next gets, for the i-th command, the
      outcome that command decides: its write error, or else its own answer frame. Bytes and
      extra frames between commands are never attributed to any command. */
  lemma SerialisedRounds(s: State, encode: Encoder, rounds: seq<Round>)
    requires Quiet(s)
    ensures var r := Run(s, encode, RoundSteps(rounds));
      Quiet(r) && |r.outcomes| == |s.outcomes| + |rounds| && r.outcomes[..|s.outcomes|] == s.outcomes
      && forall i :: 0 <= i < |rounds| ==> r.outcomes[|s.outcomes| + i] == Expected(rounds[i])
  {
    RunRounds(s, encode, rounds);
    ServeRounds(s, encode, rounds);
    OutcomesAt(rounds);
  }

  /** Overlapping commands, which the driver does not guard against: when a second command is
      written before the first is answered, the next frame settles both with the same answer. */
  lemma OverlappingCommandsShareAnswer(s: State, encode: Encoder, c1: Command, c2: Command, frame: Frame)
    requires Valid(s)
    ensures var r := Run(s, encode, [Call(c1, WriteOk), Call(c2, WriteOk), Arrive(frame)]);
      |r.outcomes| == |s.outcomes| + 2
      && r.outcomes[|s.outcomes|] == Answer(frame) && r.outcomes[|s.outcomes| + 1] == Answer(frame)
  {
    var s1 := Issue(s, encode, c1, WriteOk);
    IssueSpec(s, encode, c1, WriteOk);
    var s2 := Issue(s1, encode, c2, WriteOk);
    IssueSpec(s1, encode, c2, WriteOk);
    DeliverSpec(s2, frame);
    var steps := [Call(c1, WriteOk), Call(c2, WriteOk), Arrive(frame)];
    assert steps == [steps[0]] + ([steps[1]] + [steps[2]]);
    RunCons(s, encode, steps[0], [steps[1]] + [steps[2]]);
    RunCons(s1, encode, steps[1], [steps[2]]);
    RunCons(s2, encode, steps[2], []);
  }

  // ---------------------------------------------------------------- reset

  /** reset() empties the decoder before the Reset frame is encoded and written, and otherwise
      acts exactly as sending tag 0 with no arguments. */
  lemma ResetClearsFirst(s: State, encode: Encoder, result: WriteResult)
    ensures var r := Issue(s, encode, Reset, result);
      var plain := Send(s, encode, TagReset, [], result);
      && r.decoderBuf == []
      && r.log == s.log + [DecoderCleared, PacketWritten(encode(TagReset, []), result.WriteOk?)]
      && r.observers == plain.observers && r.outcomes == plain.outcomes
  {
  }

  /** Bytes fed to the decoder before reset() never reach a frame decoded after it: its input is
      then only what arrived since. */
  lemma StaleBytesDiscarded(s: State, encode: Encoder, stale: seq<Byte>, result: WriteResult, recent: seq<Byte>)
    ensures Feed(Issue(Feed(s, stale), encode, Reset, result), recent).decoderBuf == recent
  {
  }

  /** The decoder state changes only by inbound bytes and by reset(). */
  lemma DecoderOnlyReset(s: State, encode: Encoder, step: Step)
    ensures Apply(s, encode, step).decoderBuf ==
      match step
      case Call(c, _) => if c.Reset? then [] else s.decoderBuf
      case Incoming(bytes) => s.decoderBuf + bytes
      case Arrive(_) => s.decoderBuf
  {
  }
}
