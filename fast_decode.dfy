/** The drive loops of `fast-decode`: read packets or raw messages until a clean
    end of stream, hand each to the decoder, print what the selected output
    mode renders and count what was processed. The decoder of the external
    codec library is a parameter: a function from its state, the message
    factory in use and the bytes it is given to what it reports. */
module FastDecode {
  import opened Io
  import opened Packets

  /** The message factory the decoder fills: no-op callbacks, or one that
      renders the message as text, or as JSON. */
  datatype OutputMode = Null | Text | Json

  /** The flags of the command line that the core looks at. */
  datatype Args = Args(quiet: bool, json: bool, packet: bool)

  /** What `decode_vec` reports for one payload: the factory's rendered `text`
      and the decoder's next state, or an error. */
  datatype VecStep<S> = Decoded(text: string, state: S) | VecFailed(error: CodecError)

  /** What `decode_stream` reports at the head of the remaining stream: the
      rendered `text`, how many bytes the message took and the next state, or
      an error (its own end of file among them). */
  datatype StreamStep<S> = Streamed(text: string, consumed: nat, state: S) | StreamFailed(error: CodecError)

  /** What a drive loop returns, prints and counts. */
  datatype Run = Run(outcome: Outcome, lines: seq<string>, count: nat)

  /** Quiet wins over JSON; text otherwise. */
  function SelectMode(quiet: bool, json: bool): (m: OutputMode)
    ensures m.Null? <==> quiet
    ensures m.Json? <==> !quiet && json
    ensures m.Text? <==> !quiet && !json
  {
    if quiet then Null else if json then Json else Text
  }

  /** The lines printed for a decoded message: none for the null factory, its
      `text` otherwise (the JSON factory keeps its rendering in `text` too). */
  function Emit(mode: OutputMode, text: string): (r: seq<string>)
    ensures |r| <= 1 && (r == [] <==> mode.Null?)
    ensures forall k :: 0 <= k < |r| ==> r[k] == text
  {
    match mode
    case Null => []
    case Text => [text]
    case Json => [text]
  }

  /** A run that begins with one more processed message. */
  function Prepend(lines: seq<string>, r: Run): Run
  {
    Run(r.outcome, lines + r.lines, r.count + 1)
  }

  /** Moving one processed message from the rest of a run to the part
      already done. */
  lemma Absorb(whole: Run, lines: seq<string>, count: nat, emitted: seq<string>, rest: Run)
    requires whole == Run(rest.outcome, lines + (emitted + rest.lines), count + (rest.count + 1))
    ensures whole == Run(rest.outcome, (lines + emitted) + rest.lines, (count + 1) + rest.count)
  {
    assert lines + (emitted + rest.lines) == (lines + emitted) + rest.lines;
  }

  /** A run whose rest is a final outcome with nothing printed. */
  lemma Finish(whole: Run, lines: seq<string>, count: nat, outcome: Outcome)
    requires whole == Run(outcome, lines + [], count + 0)
    ensures whole == Run(outcome, lines, count)
  {
    assert lines + [] == lines;
  }

  // ---------------------------------------------------------------------
  // read_all_packets

  /** What `read_all_packets` does from cursor `pos` with the decoder in
      state `st`. */
  function PacketsFrom<S>(dec: (S, OutputMode, seq<byte>) -> VecStep<S>, st: S, mode: OutputMode,
                          s: seq<byte>, pos: nat): (r: Run)
    requires pos <= |s|
    ensures r.count <= |s| - pos
    ensures mode.Null? ==> r.lines == []
    ensures !mode.Null? ==> |r.lines| == r.count
    decreases |s| - pos
  {
    match DecodePacket(s, pos)
    case Eof => Run(Success, [], 0)
    case Err(e) => Run(Failure(e), [], 0)
    case Ok(p, next) =>
      match dec(st, mode, p.payload)
      case VecFailed(e) => Run(Failure(Decoder(e)), [], 0)
      case Decoded(text, st') => Prepend(Emit(mode, text), PacketsFrom(dec, st', mode, s, next))
  }

  /** One packet read and decoded: the run from `pos` is that packet's lines
      followed by the run from the next frame. */
  lemma PacketsStep<S>(dec: (S, OutputMode, seq<byte>) -> VecStep<S>, st: S, mode: OutputMode,
                       s: seq<byte>, pos: nat, p: Packet, next: nat)
    requires pos <= |s| && DecodePacket(s, pos) == Ok(p, next) && dec(st, mode, p.payload).Decoded?
    ensures var d := dec(st, mode, p.payload);
            PacketsFrom(dec, st, mode, s, pos) == Prepend(Emit(mode, d.text), PacketsFrom(dec, d.state, mode, s, next))
  {
  }

  method ReadAllPackets<S>(dec: (S, OutputMode, seq<byte>) -> VecStep<S>, st0: S, mode: OutputMode,
                           data: array<byte>)
    returns (outcome: Outcome, lines: seq<string>, packetCount: nat, messageCount: nat)
    ensures Run(outcome, lines, packetCount) == PacketsFrom(dec, st0, mode, data[..], 0)
    ensures messageCount == packetCount
  {
    ghost var s := data[..];
    ghost var whole := PacketsFrom(dec, st0, mode, s, 0);
    var st := st0;
    var pos := 0;
    lines, packetCount, messageCount := [], 0, 0;
    while true
      invariant pos <= data.Length && messageCount == packetCount
      invariant var r := PacketsFrom(dec, st, mode, s, pos);
                whole == Run(r.outcome, lines + r.lines, packetCount + r.count)
      decreases data.Length - pos
    {
      var packet := ReadPacket(data, pos);
      match packet {
        case Eof =>
          Finish(whole, lines, packetCount, Success);
          break;
        case Err(e) =>
          Finish(whole, lines, packetCount, Failure(e));
          return Failure(e), lines, packetCount, messageCount;
        case Ok(p, next) =>
          var step := dec(st, mode, p.payload);
          match step {
            case VecFailed(e) =>
              Finish(whole, lines, packetCount, Failure(Decoder(e)));
              return Failure(Decoder(e)), lines, packetCount, messageCount;
            case Decoded(text, st') =>
              PacketsStep(dec, st, mode, s, pos, p, next);
              Absorb(whole, lines, packetCount, Emit(mode, text), PacketsFrom(dec, st', mode, s, next));
              lines := lines + Emit(mode, text);
              st, pos := st', next;
          }
      }
      packetCount := packetCount + 1;
      messageCount := messageCount + 1;
    }
    return Success, lines, packetCount, messageCount;
  }

  /** Decoding packets already deframed, one after another, until the decoder
      fails; `stop` is how the deframing ended. */
  function DecodeEach<S>(dec: (S, OutputMode, seq<byte>) -> VecStep<S>, st: S, mode: OutputMode,
                         ps: seq<Packet>, stop: Option<Error>): Run
    decreases |ps|
  {
    if ps == [] then
      match stop
      case None => Run(Success, [], 0)
      case Some(e) => Run(Failure(e), [], 0)
    else
      match dec(st, mode, ps[0].payload)
      case VecFailed(e) => Run(Failure(Decoder(e)), [], 0)
      case Decoded(text, st') => Prepend(Emit(mode, text), DecodeEach(dec, st', mode, ps[1..], stop))
  }

  /** The packet loop is deframing the whole stream and then decoding the
      packets in order: no packet is skipped or decoded twice, and the loop
      stops at the first failure of either. */
  lemma {:induction false} PacketsFromDeframes<S>(dec: (S, OutputMode, seq<byte>) -> VecStep<S>, st: S,
                                                  mode: OutputMode, s: seq<byte>, pos: nat)
    requires pos <= |s|
    ensures PacketsFrom(dec, st, mode, s, pos) == DecodeEach(dec, st, mode, Deframe(s, pos).packets, Deframe(s, pos).stop)
    decreases |s| - pos
  {
    match DecodePacket(s, pos)
    case Eof =>
    case Err(e) =>
    case Ok(p, next) =>
      var d := Deframe(s, next);
      DeframeStep(s, pos, p, next);
      assert ([p] + d.packets)[0] == p && ([p] + d.packets)[1..] == d.packets;
      match dec(st, mode, p.payload)
      case VecFailed(e) =>
      case Decoded(text, st') => PacketsFromDeframes(dec, st', mode, s, next);
  }

  /** What decoding a run of packets can end in. */
  lemma {:induction false} DecodeEachOutcome<S>(dec: (S, OutputMode, seq<byte>) -> VecStep<S>, st: S,
                                                mode: OutputMode, ps: seq<Packet>, stop: Option<Error>)
    ensures var r := DecodeEach(dec, st, mode, ps, stop);
            r.count <= |ps| &&
            (r.outcome.Success? <==> r.count == |ps| && stop.None?) &&
            (r.count == |ps| && stop.Some? ==> r.outcome == Failure(stop.value)) &&
            (r.count < |ps| ==> r.outcome.Failure? && r.outcome.error.Decoder?) &&
            (mode.Null? ==> r.lines == []) &&
            (!mode.Null? ==> |r.lines| == r.count)
    decreases |ps|
  {
    if ps != [] {
      match dec(st, mode, ps[0].payload)
      case VecFailed(e) =>
      case Decoded(text, st') => DecodeEachOutcome(dec, st', mode, ps[1..], stop);
    }
  }

  /** `read_all_packets` succeeds exactly when every packet of the stream was
      decoded and the stream ended cleanly at a frame boundary; it counts one
      per decoded packet; a framing error is returned only once all packets
      before it were decoded, and stopping earlier means the decoder failed;
      the null mode prints nothing and the others print one line per packet. */
  lemma PacketRunMeaning<S>(dec: (S, OutputMode, seq<byte>) -> VecStep<S>, st: S, mode: OutputMode,
                            s: seq<byte>, pos: nat)
    requires pos <= |s|
    ensures var r := PacketsFrom(dec, st, mode, s, pos); var d := Deframe(s, pos);
            r.count <= |d.packets| &&
            (r.outcome.Success? <==> r.count == |d.packets| && d.stop.None?) &&
            (r.count == |d.packets| && d.stop.Some? ==> r.outcome == Failure(d.stop.value)) &&
            (r.count < |d.packets| ==> r.outcome.Failure? && r.outcome.error.Decoder?) &&
            (mode.Null? ==> r.lines == []) &&
            (!mode.Null? ==> |r.lines| == r.count)
  {
    PacketsFromDeframes(dec, st, mode, s, pos);
    DecodeEachOutcome(dec, st, mode, Deframe(s, pos).packets, Deframe(s, pos).stop);
  }

  /** A stream made of the frames of `ps`, each of which the decoder accepts,
      is read to a clean end: every packet counted and, unless quiet, one line
      printed for each. */
  lemma FramedStreamDecoded<S>(dec: (S, OutputMode, seq<byte>) -> VecStep<S>, st: S, mode: OutputMode,
                               ps: seq<Packet>)
    requires Framable(ps)
    requires forall t: S, p: seq<byte> :: dec(t, mode, p).Decoded?
    ensures var r := PacketsFrom(dec, st, mode, EncodePackets(ps), 0);
            r.outcome == Success && r.count == |ps| &&
            (mode.Null? ==> r.lines == []) && (!mode.Null? ==> |r.lines| == |ps|)
  {
    var pre: seq<byte> := [];
    assert pre + EncodePackets(ps) == EncodePackets(ps);
    DeframeEncoded(pre, ps);
    PacketsFromDeframes(dec, st, mode, EncodePackets(ps), 0);
    AcceptedDecodeEach(dec, st, mode, ps);
    PacketRunMeaning(dec, st, mode, EncodePackets(ps), 0);
  }

  lemma {:induction false} AcceptedDecodeEach<S>(dec: (S, OutputMode, seq<byte>) -> VecStep<S>, st: S,
                                                 mode: OutputMode, ps: seq<Packet>)
    requires forall t: S, p: seq<byte> :: dec(t, mode, p).Decoded?
    ensures DecodeEach(dec, st, mode, ps, None).count == |ps|
    decreases |ps|
  {
    if ps != [] {
      AcceptedDecodeEach(dec, dec(st, mode, ps[0].payload).state, mode, ps[1..]);
    }
  }

  // ---------------------------------------------------------------------
  // read_all_messages

  /** The stream decoder takes at least one byte for every message it
      decodes, and no more than there are. */
  ghost predicate Progresses<S(!new)>(dec: (S, OutputMode, seq<byte>) -> StreamStep<S>)
  {
    forall st: S, mode: OutputMode, rest: seq<byte> ::
      dec(st, mode, rest).Streamed? ==> 0 < dec(st, mode, rest).consumed <= |rest|
  }

  /** What `read_all_messages` does from cursor `pos` with the decoder in
      state `st`. */
  function MessagesFrom<S(!new)>(dec: (S, OutputMode, seq<byte>) -> StreamStep<S>, st: S, mode: OutputMode,
                           s: seq<byte>, pos: nat): (r: Run)
    requires pos <= |s| && Progresses(dec)
    ensures r.count <= |s| - pos
    ensures mode.Null? ==> r.lines == []
    ensures !mode.Null? ==> |r.lines| == r.count
    decreases |s| - pos
  {
    match dec(st, mode, s[pos..])
    case StreamFailed(EndOfFile) => Run(Success, [], 0)
    case StreamFailed(e) => Run(Failure(Decoder(e)), [], 0)
    case Streamed(text, n, st') => Prepend(Emit(mode, text), MessagesFrom(dec, st', mode, s, pos + n))
  }

  /** One message decoded: the run from `pos` is that message's lines
      followed by the run from where it ended. */
  lemma MessagesStep<S(!new)>(dec: (S, OutputMode, seq<byte>) -> StreamStep<S>, st: S, mode: OutputMode,
                              s: seq<byte>, pos: nat)
    requires pos <= |s| && Progresses(dec) && dec(st, mode, s[pos..]).Streamed?
    ensures var d := dec(st, mode, s[pos..]);
            pos + d.consumed <= |s| &&
            MessagesFrom(dec, st, mode, s, pos) == Prepend(Emit(mode, d.text), MessagesFrom(dec, d.state, mode, s, pos + d.consumed))
  {
  }

  method ReadAllMessages<S(!new)>(dec: (S, OutputMode, seq<byte>) -> StreamStep<S>, st0: S, mode: OutputMode,
                                  data: array<byte>)
    returns (outcome: Outcome, lines: seq<string>, messageCount: nat)
    requires Progresses(dec)
    ensures Run(outcome, lines, messageCount) == MessagesFrom(dec, st0, mode, data[..], 0)
  {
    ghost var s := data[..];
    ghost var whole := MessagesFrom(dec, st0, mode, s, 0);
    var st := st0;
    var pos := 0;
    lines, messageCount := [], 0;
    while true
      invariant pos <= data.Length
      invariant var r := MessagesFrom(dec, st, mode, s, pos);
                whole == Run(r.outcome, lines + r.lines, messageCount + r.count)
      decreases data.Length - pos
    {
      assert data[pos..] == s[pos..];
      var step := dec(st, mode, data[pos..]);
      match step {
        case StreamFailed(e) =>
          if e.EndOfFile? {
            Finish(whole, lines, messageCount, Success);
            break;
          }
          Finish(whole, lines, messageCount, Failure(Decoder(e)));
          return Failure(Decoder(e)), lines, messageCount;
        case Streamed(text, n, st') =>
          MessagesStep(dec, st, mode, s, pos);
          Absorb(whole, lines, messageCount, Emit(mode, text), MessagesFrom(dec, st', mode, s, pos + n));
          lines := lines + Emit(mode, text);
          st, pos := st', pos + n;
      }
      messageCount := messageCount + 1;
    }
    return Success, lines, messageCount;
  }

  /** The decoder state and cursor after `k` decoded messages, if the first
      `k` calls of `decode_stream` all decoded one. */
  datatype Cursor<S> = Cursor(state: S, pos: nat)

  function After<S(!new)>(dec: (S, OutputMode, seq<byte>) -> StreamStep<S>, st: S, mode: OutputMode,
                    s: seq<byte>, pos: nat, k: nat): Option<Cursor<S>>
    requires pos <= |s| && Progresses(dec)
    decreases k
  {
    if k == 0 then Some(Cursor(st, pos))
    else match dec(st, mode, s[pos..])
      case StreamFailed(_) => None
      case Streamed(_, n, st') => After(dec, st', mode, s, pos + n, k - 1)
  }

  /** `read_all_messages` counts the messages decoded before the first call
      that does not decode one; it succeeds exactly when that call reports
      the decoder's end of file, and otherwise returns that call's error; each
      message took at least one byte; the null mode prints nothing and the
      others print one line per message. */
  lemma {:induction false} MessageRunMeaning<S(!new)>(dec: (S, OutputMode, seq<byte>) -> StreamStep<S>, st: S,
                                                mode: OutputMode, s: seq<byte>, pos: nat)
    requires pos <= |s| && Progresses(dec)
    ensures var r := MessagesFrom(dec, st, mode, s, pos); var c := After(dec, st, mode, s, pos, r.count);
            c.Some? && pos + r.count <= c.value.pos <= |s| &&
            dec(c.value.state, mode, s[c.value.pos..]).StreamFailed? &&
            (r.outcome.Success? <==> dec(c.value.state, mode, s[c.value.pos..]).error.EndOfFile?) &&
            (r.outcome.Failure? ==> r.outcome.error == Decoder(dec(c.value.state, mode, s[c.value.pos..]).error)) &&
            (mode.Null? ==> r.lines == []) &&
            (!mode.Null? ==> |r.lines| == r.count)
    decreases |s| - pos
  {
    match dec(st, mode, s[pos..])
    case StreamFailed(e) =>
    case Streamed(text, n, st') => MessageRunMeaning(dec, st', mode, s, pos + n);
  }

  // ---------------------------------------------------------------------
  // decode

  /** What `decode` does once the templates are loaded and the input is open. */
  function DecodeRun<S(!new)>(args: Args, decVec: (S, OutputMode, seq<byte>) -> VecStep<S>,
                        decStream: (S, OutputMode, seq<byte>) -> StreamStep<S>, st: S, s: seq<byte>): (r: Run)
    requires !args.packet ==> Progresses(decStream)
    ensures r.count <= |s|
  {
    var mode := SelectMode(args.quiet, args.json);
    if args.packet then PacketsFrom(decVec, st, mode, s, 0) else MessagesFrom(decStream, st, mode, s, 0)
  }

  method Decode<S(!new)>(args: Args, decVec: (S, OutputMode, seq<byte>) -> VecStep<S>,
                   decStream: (S, OutputMode, seq<byte>) -> StreamStep<S>, st: S, data: array<byte>)
    returns (outcome: Outcome, lines: seq<string>)
    requires !args.packet ==> Progresses(decStream)
    ensures outcome == DecodeRun(args, decVec, decStream, st, data[..]).outcome
    ensures lines == DecodeRun(args, decVec, decStream, st, data[..]).lines
  {
    var mode := SelectMode(args.quiet, args.json);
    if args.packet {
      var packets, messages;
      outcome, lines, packets, messages := ReadAllPackets(decVec, st, mode, data);
    } else {
      var messages;
      outcome, lines, messages := ReadAllMessages(decStream, st, mode, data);
    }
  }

  /** `--quiet` prints nothing whatever else is asked for; without it, one
      line is printed per decoded message, in both loops. */
  lemma QuietPrintsNothing<S(!new)>(args: Args, decVec: (S, OutputMode, seq<byte>) -> VecStep<S>,
                              decStream: (S, OutputMode, seq<byte>) -> StreamStep<S>, st: S, s: seq<byte>)
    requires !args.packet ==> Progresses(decStream)
    ensures var r := DecodeRun(args, decVec, decStream, st, s);
            (args.quiet ==> r.lines == []) && (!args.quiet ==> |r.lines| == r.count)
  {
    var mode := SelectMode(args.quiet, args.json);
    if args.packet {
      PacketRunMeaning(decVec, st, mode, s, 0);
    } else {
      MessageRunMeaning(decStream, st, mode, s, 0);
    }
  }
}
