/** The drive loops of `fast-encode`: turn each input line into a message,
    encode it and write it out, either wrapped in a packet numbered from 1 or
    as a bare message, stopping at the first failure. The encoder of the
    external codec library, the text parser and the packet writer are
    parameters: functions from their state to what they report. */
module FastEncode {
  import opened Io
  import opened Packets

  /** The flag of the command line that the core looks at. */
  datatype Args = Args(packet: bool)

  /** An item of `input.lines()`: a line, or the I/O error reading it. */
  datatype LineItem = Line(text: string) | Unreadable

  /** What `TextMessageVisitor::from_text` makes of a line. */
  datatype Parsed<M> = Parsed(message: M) | Unparsable

  /** What `encode_vec` reports: the encoded bytes and the encoder's next state. */
  datatype VecEncoded<S> = Encoded(bytes: seq<byte>, state: S) | VecEncodeFailed

  /** What `encode_stream` reports: the encoder's next state and the sink after
      the message was written onto it. */
  datatype StreamEncoded<S, W> = EncodedOnto(state: S, sink: W) | StreamEncodeFailed(sink: W)

  /** What `Packet::write` reports, with the output after the call: nothing
      undoes what a failing write already wrote. */
  datatype Written<W> = Wrote(sink: W) | WriteFailed(sink: W)

  /** What `write_all_packets` returns; `written` are the packets that
      `Packet::write` accepted, in order, and `sink` is the output after them. */
  datatype PacketRun<W> = PacketRun(outcome: Outcome, written: seq<Packet>, sink: W)

  /** What `write_all_messages` returns, counts and leaves in the output. */
  datatype MessageRun<W> = MessageRun(outcome: Outcome, count: nat, sink: W)

  /** The error a loop stops with at line `item`: the line cannot be read, or
      it cannot be parsed, or else `otherwise` (the encoder or the writer). */
  function LineFailure<M>(parse: string -> Parsed<M>, item: LineItem, otherwise: Error): Error
  {
    if item.Unreadable? then LineUnreadable
    else if parse(item.text).Unparsable? then TextUnparsable
    else otherwise
  }

  // ---------------------------------------------------------------------
  // write_all_packets

  /** What `write_all_packets` does from line `i` on, the next packet carrying
      the sequence number `seqNum`. */
  function WritePacketsFrom<S, M, W>(parse: string -> Parsed<M>, enc: (S, M) -> VecEncoded<S>,
                                     write: (W, Packet) -> Written<W>, st: S, sink: W,
                                     lines: seq<LineItem>, i: nat, seqNum: u32): (run: PacketRun<W>)
    requires i <= |lines| && seqNum + (|lines| - i) < U32_LIMIT
    ensures |run.written| <= |lines| - i
    ensures forall k :: 0 <= k < |run.written| ==> run.written[k].seqNum == seqNum + k && run.written[k].subChannel == 0
    decreases |lines| - i
  {
    if i == |lines| then PacketRun(Success, [], sink)
    else match lines[i]
      case Unreadable => PacketRun(Failure(LineUnreadable), [], sink)
      case Line(text) =>
        match parse(text)
        case Unparsable => PacketRun(Failure(TextUnparsable), [], sink)
        case Parsed(m) =>
          match enc(st, m)
          case VecEncodeFailed => PacketRun(Failure(EncoderFailure), [], sink)
          case Encoded(bytes, st') =>
            var p := Packet(seqNum, 0, bytes);
            match write(sink, p)
            case WriteFailed(sink') => PacketRun(Failure(WriteFailure), [], sink')
            case Wrote(sink') =>
              var r := WritePacketsFrom(parse, enc, write, st', sink', lines, i + 1, seqNum + 1);
              PacketRun(r.outcome, [p] + r.written, r.sink)
  }

  method WriteAllPackets<S, M, W>(parse: string -> Parsed<M>, enc: (S, M) -> VecEncoded<S>,
                                  write: (W, Packet) -> Written<W>, st0: S, sink0: W, lines: seq<LineItem>)
    returns (outcome: Outcome, written: seq<Packet>, sink: W, packetCount: nat, messageCount: nat)
    requires |lines| < U32_LIMIT - 1
    ensures PacketRun(outcome, written, sink) == WritePacketsFrom(parse, enc, write, st0, sink0, lines, 0, 1)
    ensures packetCount == messageCount == |written|
  {
    var st := st0;
    var seqNum: u32 := 1;
    sink, written, packetCount, messageCount := sink0, [], 0, 0;
    for i := 0 to |lines|
      invariant seqNum == i + 1 && packetCount == messageCount == |written|
      invariant var r := WritePacketsFrom(parse, enc, write, st, sink, lines, i, seqNum);
                WritePacketsFrom(parse, enc, write, st0, sink0, lines, 0, 1)
                  == PacketRun(r.outcome, written + r.written, r.sink)
    {
      var text: string;
      match lines[i] {
        case Unreadable => return Failure(LineUnreadable), written, sink, packetCount, messageCount;
        case Line(t) => text := t;
      }
      var message: M;
      match parse(text) {
        case Unparsable => return Failure(TextUnparsable), written, sink, packetCount, messageCount;
        case Parsed(m) => message := m;
      }
      var payload: seq<byte>;
      match enc(st, message) {
        case VecEncodeFailed => return Failure(EncoderFailure), written, sink, packetCount, messageCount;
        case Encoded(bytes, st') => payload, st := bytes, st';
      }
      var packet := Packet(seqNum, 0, payload);
      match write(sink, packet) {
        case WriteFailed(sink') => return Failure(WriteFailure), written, sink', packetCount, messageCount;
        case Wrote(sink') =>
          ghost var r := WritePacketsFrom(parse, enc, write, st, sink', lines, i + 1, seqNum + 1);
          assert written + ([packet] + r.written) == (written + [packet]) + r.written;
          sink := sink';
      }
      written := written + [packet];
      seqNum := seqNum + 1;
      packetCount := packetCount + 1;
      messageCount := messageCount + 1;
    }
    assert written + [] == written;
    return Success, written, sink, packetCount, messageCount;
  }

  /** The payloads the encoder produces for the lines from `i` on, up to the
      first line that cannot be read, parsed or encoded (the writer aside). */
  function EncodedPayloads<S, M>(parse: string -> Parsed<M>, enc: (S, M) -> VecEncoded<S>, st: S,
                                 lines: seq<LineItem>, i: nat): seq<seq<byte>>
    requires i <= |lines|
    decreases |lines| - i
  {
    if i == |lines| || lines[i].Unreadable? || parse(lines[i].text).Unparsable? then []
    else match enc(st, parse(lines[i].text).message)
      case VecEncodeFailed => []
      case Encoded(bytes, st') => [bytes] + EncodedPayloads(parse, enc, st', lines, i + 1)
  }

  /** `write_all_packets` writes the k-th packet with the sequence number
      `seqNum + k`, sub-channel 0 and the encoder's output for the k-th line as
      payload; it succeeds exactly when every line was written, and otherwise
      stops with the error of the first line it could not read, parse, encode
      or write. */
  lemma {:induction false} WritePacketsMeaning<S, M, W>(parse: string -> Parsed<M>, enc: (S, M) -> VecEncoded<S>,
                                                        write: (W, Packet) -> Written<W>, st: S, sink: W,
                                                        lines: seq<LineItem>, i: nat, seqNum: u32)
    requires i <= |lines| && seqNum + (|lines| - i) < U32_LIMIT
    ensures var r := WritePacketsFrom(parse, enc, write, st, sink, lines, i, seqNum);
            var ps := EncodedPayloads(parse, enc, st, lines, i);
            |r.written| <= |ps| && |r.written| <= |lines| - i &&
            (forall k :: 0 <= k < |r.written| ==> r.written[k] == Packet(seqNum + k, 0, ps[k])) &&
            (r.outcome.Success? <==> |r.written| == |lines| - i) &&
            (r.outcome.Failure? ==>
               r.outcome.error == LineFailure(parse, lines[i + |r.written|],
                                              if |r.written| < |ps| then WriteFailure else EncoderFailure))
    decreases |lines| - i
  {
    if i < |lines| && lines[i].Line? && parse(lines[i].text).Parsed? {
      var m := parse(lines[i].text).message;
      match enc(st, m)
      case VecEncodeFailed =>
      case Encoded(bytes, st') =>
        var p := Packet(seqNum, 0, bytes);
        match write(sink, p)
        case WriteFailed(_) =>
        case Wrote(sink') =>
          WritePacketsMeaning(parse, enc, write, st', sink', lines, i + 1, seqNum + 1);
          var r := WritePacketsFrom(parse, enc, write, st', sink', lines, i + 1, seqNum + 1);
          var ps := EncodedPayloads(parse, enc, st', lines, i + 1);
          assert EncodedPayloads(parse, enc, st, lines, i) == [bytes] + ps;
          forall k | 0 <= k < 1 + |r.written|
            ensures ([p] + r.written)[k] == Packet(seqNum + k, 0, ([bytes] + ps)[k])
          {
            if k > 0 { assert ([p] + r.written)[k] == r.written[k - 1]; }
          }
    }
  }

  // ---------------------------------------------------------------------
  // write_all_messages

  /** What `write_all_messages` does from line `i` on. */
  function WriteMessagesFrom<S, M, W>(parse: string -> Parsed<M>, enc: (S, W, M) -> StreamEncoded<S, W>,
                                      st: S, sink: W, lines: seq<LineItem>, i: nat): (run: MessageRun<W>)
    requires i <= |lines|
    ensures run.count <= |lines| - i
    decreases |lines| - i
  {
    if i == |lines| then MessageRun(Success, 0, sink)
    else match lines[i]
      case Unreadable => MessageRun(Failure(LineUnreadable), 0, sink)
      case Line(text) =>
        match parse(text)
        case Unparsable => MessageRun(Failure(TextUnparsable), 0, sink)
        case Parsed(m) =>
          match enc(st, sink, m)
          case StreamEncodeFailed(sink') => MessageRun(Failure(EncoderFailure), 0, sink')
          case EncodedOnto(st', sink') =>
            var r := WriteMessagesFrom(parse, enc, st', sink', lines, i + 1);
            MessageRun(r.outcome, r.count + 1, r.sink)
  }

  method WriteAllMessages<S, M, W>(parse: string -> Parsed<M>, enc: (S, W, M) -> StreamEncoded<S, W>,
                                   st0: S, sink0: W, lines: seq<LineItem>)
    returns (outcome: Outcome, sink: W, messageCount: nat)
    ensures MessageRun(outcome, messageCount, sink) == WriteMessagesFrom(parse, enc, st0, sink0, lines, 0)
  {
    var st := st0;
    sink, messageCount := sink0, 0;
    for i := 0 to |lines|
      invariant messageCount == i
      invariant var r := WriteMessagesFrom(parse, enc, st, sink, lines, i);
                WriteMessagesFrom(parse, enc, st0, sink0, lines, 0) == MessageRun(r.outcome, messageCount + r.count, r.sink)
    {
      var text: string;
      match lines[i] {
        case Unreadable => return Failure(LineUnreadable), sink, messageCount;
        case Line(t) => text := t;
      }
      var message: M;
      match parse(text) {
        case Unparsable => return Failure(TextUnparsable), sink, messageCount;
        case Parsed(m) => message := m;
      }
      match enc(st, sink, message) {
        case StreamEncodeFailed(sink') => return Failure(EncoderFailure), sink', messageCount;
        case EncodedOnto(st', sink') => st, sink := st', sink';
      }
      messageCount := messageCount + 1;
    }
    return Success, sink, messageCount;
  }

  /** `write_all_messages` counts one message per line it encoded, succeeds
      exactly when it encoded every line, and otherwise stops with the error
      of the first line it could not read, parse or encode. */
  lemma {:induction false} WriteMessagesMeaning<S, M, W>(parse: string -> Parsed<M>, enc: (S, W, M) -> StreamEncoded<S, W>,
                                                         st: S, sink: W, lines: seq<LineItem>, i: nat)
    requires i <= |lines|
    ensures var r := WriteMessagesFrom(parse, enc, st, sink, lines, i);
            r.count <= |lines| - i &&
            (r.outcome.Success? <==> r.count == |lines| - i) &&
            (r.outcome.Failure? ==> r.outcome.error == LineFailure(parse, lines[i + r.count], EncoderFailure))
    decreases |lines| - i
  {
    if i < |lines| && lines[i].Line? && parse(lines[i].text).Parsed? {
      match enc(st, sink, parse(lines[i].text).message)
      case StreamEncodeFailed(_) =>
      case EncodedOnto(st', sink') => WriteMessagesMeaning(parse, enc, st', sink', lines, i + 1);
    }
  }

  // ---------------------------------------------------------------------
  // encode

  /** What `encode` does once the templates are loaded and input and output
      are open: the outcome, the number of messages and the final output. */
  function EncodeRun<S, M, W>(args: Args, parse: string -> Parsed<M>, encVec: (S, M) -> VecEncoded<S>,
                              encStream: (S, W, M) -> StreamEncoded<S, W>, write: (W, Packet) -> Written<W>,
                              st: S, sink: W, lines: seq<LineItem>): (run: MessageRun<W>)
    requires args.packet ==> |lines| < U32_LIMIT - 1
    ensures run.count <= |lines|
  {
    if args.packet then
      var r := WritePacketsFrom(parse, encVec, write, st, sink, lines, 0, 1);
      MessageRun(r.outcome, |r.written|, r.sink)
    else WriteMessagesFrom(parse, encStream, st, sink, lines, 0)
  }

  method Encode<S, M, W>(args: Args, parse: string -> Parsed<M>, encVec: (S, M) -> VecEncoded<S>,
                         encStream: (S, W, M) -> StreamEncoded<S, W>, write: (W, Packet) -> Written<W>,
                         st: S, sink0: W, lines: seq<LineItem>)
    returns (outcome: Outcome, sink: W, messageCount: nat)
    requires args.packet ==> |lines| < U32_LIMIT - 1
    ensures MessageRun(outcome, messageCount, sink) == EncodeRun(args, parse, encVec, encStream, write, st, sink0, lines)
  {
    if args.packet {
      var written, packetCount;
      outcome, written, sink, packetCount, messageCount := WriteAllPackets(parse, encVec, write, st, sink0, lines);
    } else {
      outcome, sink, messageCount := WriteAllMessages(parse, encStream, st, sink0, lines);
    }
  }

  /** Both loops: success means every line became a message, and never more
      messages than lines. */
  lemma EncodeCountsLines<S, M, W>(args: Args, parse: string -> Parsed<M>, encVec: (S, M) -> VecEncoded<S>,
                                   encStream: (S, W, M) -> StreamEncoded<S, W>, write: (W, Packet) -> Written<W>,
                                   st: S, sink: W, lines: seq<LineItem>)
    requires args.packet ==> |lines| < U32_LIMIT - 1
    ensures var r := EncodeRun(args, parse, encVec, encStream, write, st, sink, lines);
            r.count <= |lines| && (r.outcome.Success? <==> r.count == |lines|)
  {
    if args.packet {
      WritePacketsMeaning(parse, encVec, write, st, sink, lines, 0, 1);
    } else {
      WriteMessagesMeaning(parse, encStream, st, sink, lines, 0);
    }
  }

  // ---------------------------------------------------------------------
  // From fast-encode to fast-decode

  /** A specification-level `Packet::write` onto a byte output: append the
      frame, or fail when its length does not fit the 64-bit length field. */
  function AppendFrame(out: seq<byte>, p: Packet): Written<seq<byte>>
  {
    if HEADER_LEN + |p.payload| < U64_LIMIT then Wrote(out + EncodePacket(p)) else WriteFailed(out)
  }

  lemma {:induction false} WrittenFrames<S, M>(parse: string -> Parsed<M>, enc: (S, M) -> VecEncoded<S>, st: S,
                                               out: seq<byte>, lines: seq<LineItem>, i: nat, seqNum: u32)
    requires i <= |lines| && seqNum + (|lines| - i) < U32_LIMIT
    ensures var r := WritePacketsFrom(parse, enc, AppendFrame, st, out, lines, i, seqNum);
            r.sink == out + EncodePackets(r.written) && Framable(r.written)
    decreases |lines| - i
  {
    if i < |lines| && lines[i].Line? && parse(lines[i].text).Parsed? &&
       enc(st, parse(lines[i].text).message).Encoded? &&
       HEADER_LEN + |enc(st, parse(lines[i].text).message).bytes| < U64_LIMIT
    {
      var e := enc(st, parse(lines[i].text).message);
      var p := Packet(seqNum, 0, e.bytes);
      var out' := out + EncodePacket(p);
      AppendedPacket(parse, enc, st, out, lines, i, seqNum);
      WrittenFrames(parse, enc, e.state, out', lines, i + 1, seqNum + 1);
      var r' := WritePacketsFrom(parse, enc, AppendFrame, e.state, out', lines, i + 1, seqNum + 1);
      FramesCons(out, p, r'.written);
    } else {
      var r := WritePacketsFrom(parse, enc, AppendFrame, st, out, lines, i, seqNum);
      assert r.written == [] && r.sink == out;
      assert out + EncodePackets(r.written) == out;
    }
  }

  /** One packet appended by the specification-level writer: the run from
      line `i` writes it, then goes on from the next line and sequence number. */
  lemma AppendedPacket<S, M>(parse: string -> Parsed<M>, enc: (S, M) -> VecEncoded<S>, st: S,
                             out: seq<byte>, lines: seq<LineItem>, i: nat, seqNum: u32)
    requires i < |lines| && seqNum + (|lines| - i) < U32_LIMIT
    requires lines[i].Line? && parse(lines[i].text).Parsed? && enc(st, parse(lines[i].text).message).Encoded?
    requires HEADER_LEN + |enc(st, parse(lines[i].text).message).bytes| < U64_LIMIT
    ensures var e := enc(st, parse(lines[i].text).message);
            var p := Packet(seqNum, 0, e.bytes);
            var r := WritePacketsFrom(parse, enc, AppendFrame, st, out, lines, i, seqNum);
            var r' := WritePacketsFrom(parse, enc, AppendFrame, e.state, out + EncodePacket(p), lines, i + 1, seqNum + 1);
            r.written == [p] + r'.written && r.sink == r'.sink
  {
  }

  /** The frames of one more packet in front. */
  lemma FramesCons(out: seq<byte>, p: Packet, ps: seq<Packet>)
    requires HEADER_LEN + |p.payload| < U64_LIMIT && Framable(ps)
    ensures out + EncodePacket(p) + EncodePackets(ps) == out + EncodePackets([p] + ps)
    ensures Framable([p] + ps)
  {
    assert ([p] + ps)[1..] == ps;
    assert Framable([p] + ps) by {
      forall k | 0 <= k < |[p] + ps| ensures HEADER_LEN + |([p] + ps)[k].payload| < U64_LIMIT {
        if k > 0 { assert ([p] + ps)[k] == ps[k - 1]; }
      }
    }
  }

  /** What `fast-encode --packet` writes from an empty output, `fast-decode
      --packet` deframes into exactly the packets written, numbered 1, 2, 3 ...
      on sub-channel 0, followed by a clean end of stream. */
  lemma EncodedStreamDeframes<S, M>(parse: string -> Parsed<M>, enc: (S, M) -> VecEncoded<S>, st: S,
                                    lines: seq<LineItem>)
    requires |lines| < U32_LIMIT - 1
    ensures var r := WritePacketsFrom(parse, enc, AppendFrame, st, [], lines, 0, 1);
            Deframe(r.sink, 0) == Deframed(r.written, None) &&
            forall k :: 0 <= k < |r.written| ==> r.written[k].seqNum == k + 1 && r.written[k].subChannel == 0
  {
    var r := WritePacketsFrom(parse, enc, AppendFrame, st, [], lines, 0, 1);
    WrittenFrames(parse, enc, st, [], lines, 0, 1);
    WritePacketsMeaning(parse, enc, AppendFrame, st, [], lines, 0, 1);
    var pre: seq<byte> := [];
    DeframeEncoded(pre, r.written);
  }
}
