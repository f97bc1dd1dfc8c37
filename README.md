# rs-fast-tools: packet framing and drive loops, in Dafny

rs-fast-tools has two command-line tools, `fast-decode` and `fast-encode`. They move
FAST (FIX Adapted for STreaming) messages between a binary stream and text lines. The
template-driven message codec itself is an external library. This project models the
part of the tools that the repository implements itself:

- **The stop-bit integer** (`read_var_uint`): 7 data bits per byte, most significant
  group first; the first byte whose top bit is set ends the number. The accumulator
  is a `u64`, so bits shifted past bit 63 are lost.
- **The packet envelope** (`Packet::read`): a stop-bit length, a 4-byte big-endian
  sequence number, a 1-byte sub-channel and `length - 5` payload bytes. A read ends in
  one of three ways:
  - a clean end of stream (no byte before the length field);
  - an error: a length below 5, or a stream that ends inside a frame;
  - a packet.
- **`fast-decode`**:
  - `decode` picks the output mode.
  - `--quiet` wins over `--json`, and Text is the default.
  - It runs one of two loops:
    - `read_all_packets` reads packets until a clean end of stream and hands each
      payload to the decoder.
    - `read_all_messages` asks the stream decoder for messages until it reports its
      own end of file.
  - Both loops print the decoded text once per message unless the mode is Null.
  - The first error stops the run and is returned.
- **`fast-encode`**:
  - `encode` picks one of two loops; both turn each input line into a message and
    encode it.
  - `write_all_packets` wraps each message in a packet. The packets are numbered
    1, 2, 3 … and use sub-channel 0.
  - `write_all_messages` writes each message to the output bare.
  - The first line that cannot be read, parsed, encoded or written stops the run and
    that error is returned.

Project layout:

- `io.dfy`: the machine integer types `byte`, `u32` and `u64`, the error kinds, and
  the three-way result of a read.
- `varuint.dfy`: the stop-bit integer.
  - `DecodeVarUint` defines it declaratively: the positional base-128 value of the
    bytes up to the first stop byte, reduced modulo 2^64.
  - The method `ReadVarUint` runs the source's loop over a byte array and a cursor,
    and is proved equal to `DecodeVarUint`.
  - A specification-level encoder, `EncodeVarUint`, states which bytes the decoder
    accepts and what it reads from them.
- `packet.dfy`: the packet frame.
  - `DecodePacket` defines it, and the method `ReadPacket` copies the header and the
    payload with `read_exact` into fresh arrays.
  - `EncodePacket` lays out a frame, and `Deframe` reads a whole stream of frames.
- `fast_decode.dfy` and `fast_encode.dfy`: the drive loops.
  - They are methods with loop invariants.
  - Each is proved equal to a recursive specification function, and the
    specification functions' properties are proved as lemmas.

The external codec does not appear as code. Each decoder or encoder call is a
function-typed parameter that takes the codec's state and returns one of:

- a decoded text, or encoded bytes, with the next state;
- the codec's end of file;
- an error.

The message parser (`TextMessageVisitor::from_text`) and `Packet::write` are
parameters in the same way. Printing is modelled by returning the printed lines as a
sequence of strings.

## Model

| member | source | states |
|---|---|---|
| VarUint.GroupsValue | src/packet.rs:53-54 | the definition of the number the 7-bit groups spell, most significant first, with no bound on its size; what it means is proved in `VarUint.GroupsValueOfGroups`, `VarUint.GroupsValueLeadingZero` and, for the loop, `VarUint.ReadVarUint` |
| VarUint.FirstStop | src/packet.rs:51-58 | the index found holds a stop byte and no earlier byte from `i` on does; `None` means no byte from `i` on is a stop byte |
| VarUint.DecodeVarUint | src/packet.rs:42-60 | no value exactly when no first byte is left; an error only when no stop byte follows (the error is unexpected end of file, never "no value"); a value consumes at least one byte, ends at a stop byte and no earlier byte is a stop byte |
| VarUint.ShiftIn | src/packet.rs:53-54 | one turn of the loop is `value * 128 + (b & 0x7f)` reduced to 64 bits: the shift drops the bits past bit 63 |
| VarUint.ReadVarUint | src/packet.rs:42-60 | the byte-by-byte loop returns exactly the declarative result: no value on an empty stream, the value of the groups up to the first stop byte and the cursor after it, or unexpected end of file |
| VarUint.Groups | src/packet.rs:55 | a specification-level encoder: the high 7-bit groups carry no stop bit |
| VarUint.EncodeVarUint | src/packet.rs:55 | a specification-level encoder: the encoding is non-empty, its last byte is a stop byte and no other byte is |
| VarUint.GroupsValueOfGroups | src/packet.rs:53-54 | the positional value of the groups of `v` is `v` |
| VarUint.GroupsValueOfEncoding | src/packet.rs:53-54 | the positional value of the whole encoding of `v` is `v` |
| VarUint.DecodeEncoded | src/packet.rs:42-60 | the encoding of any `v`, anywhere in a stream and followed by anything, decodes to `v mod 2^64` and consumes exactly the encoding |
| VarUint.VarUintRoundTrip | src/packet.rs:42-60 | every 64-bit value is read back from its encoding, whatever follows it |
| VarUint.GroupsValueLeadingZero | src/packet.rs:43 | a zero group in front adds nothing to the value |
| VarUint.LeadingZeroByte | src/packet.rs:43-54 | a leading `0x00` byte (with a byte after it) changes neither whether a value is read, nor the value, nor where it ends |
| VarUint.WrapsAt64Bits | src/packet.rs:53 | the ten-byte encoding of 2^64 reads as 0: bits past bit 63 are dropped |
| VarUint.VarUintExamples | src/packet.rs:42-60 | `[0x85]` reads 5, `[0x01, 0x80]` reads 128, `[0x01]` is an error, the empty stream gives no value; the encodings of 0, 127 and 128 |
| VarUint.FirstStopAt | src/packet.rs:55-56 | a stop byte at `j` with none before it from `i` on is what the search finds |
| VarUint.FirstStopNone | src/packet.rs:58 | with no stop byte from `i` on, the search finds nothing |
| Packets.BigEndian32 | src/packet.rs:34 | the definition of the big-endian reading of four header bytes; its inverse is proved in `Packets.BigEndian32OfBytes` |
| Packets.DecodePacket | src/packet.rs:12-38 | no packet exactly when the stream is at its end; a packet read consumes at least one byte and stays inside the stream |
| Packets.ReadExact | src/packet.rs:25 | `read_exact` succeeds exactly when enough bytes remain, and then the buffer holds the next `buf.Length` bytes |
| Packets.ReadPacket | src/packet.rs:12-38 | reading the length, the 5-byte header and the payload from an array returns exactly `DecodePacket` on its contents |
| Packets.ShortLengthRejected | src/packet.rs:16-17 | a length field below 5 is an "invalid packet length" error carrying that length, never the end of the stream or a packet |
| Packets.TruncatedFrameRejected | src/packet.rs:24-31 | a frame whose bytes after the length field are fewer than the length announces is an unexpected end of file, never a shorter packet |
| Packets.PacketLayout | src/packet.rs:14-37 | a packet read consumes the length field and exactly `len` bytes after it; `len` is `5 + ` payload length; the sequence number is the big-endian value of the first four bytes, the sub-channel is the fifth, the payload is the rest |
| Packets.BigEndian32OfBytes | src/packet.rs:34 | the big-endian reading of the four bytes of `x` is `x` |
| Packets.DecodeFramed | src/packet.rs:12-38 | once the length field is read and `len >= 5` bytes follow it, the packet is made of those bytes and the cursor moves past them |
| Packets.LengthFieldOfFrame | src/packet.rs:14 | the length field of a frame reads back as `5 + ` payload length |
| Packets.FrameBody | src/packet.rs:24-35 | in a frame, the sequence-number bytes, the sub-channel and the payload sit right after the length field, in that order |
| Packets.ReadFrameAt | src/packet.rs:12-38 | a stream holding a length field `5 + n`, then the four bytes of a sequence number, a sub-channel and `n` payload bytes is read as that packet |
| Packets.ReadEncodedPacket | src/packet.rs:12-38 | the frame of any packet, anywhere in a stream and followed by anything, reads back as that packet and leaves the cursor at the start of what follows |
| Packets.PacketRoundTrip | src/packet.rs:12-38 | the frame of a packet reads back as the packet |
| Packets.EmptyPacketFrame | src/packet.rs:12-38 | the frame `[0x85, 0, 0, 0, 0, 0]` is the packet with sequence number 0, sub-channel 0 and no payload |
| Packets.SmallPacketFrame | src/packet.rs:12-38 | the eleven-byte frame of length 10 is sequence number 1, sub-channel 5 and five payload bytes |
| Packets.LengthFourRejected | src/packet.rs:16-17 | a length field of 4 is rejected as invalid even with enough bytes after it |
| Packets.OneByteShortRejected | src/packet.rs:31 | a length field of 6 followed by only five bytes is an unexpected end of file |
| Packets.Deframe | src/packet.rs:12-38 | repeated `Packet::read`: at most one packet per byte of the stream, and the only errors it can stop on are an unexpected end of file and a length field below 5 |
| Packets.DeframeStep | src/packet.rs:12-38 | after a packet is read, the rest of the stream is read from the cursor it leaves |
| Packets.DeframeEncoded | src/packet.rs:12-38 | a stream made of the frames of a list of packets yields exactly those packets, in order, then a clean end of stream |
| FastDecode.SelectMode | src/bin/fast-decode.rs:61-68 | Null exactly when quiet; Json exactly when not quiet and json; Text exactly when neither |
| FastDecode.Emit | src/bin/fast-decode.rs:114-125 | the print dispatch: at most one line per message; none exactly in the Null mode; otherwise the decoded text |
| FastDecode.PacketsFrom | src/bin/fast-decode.rs:109-129 | the packet loop from a cursor: never more packets counted than bytes remain; Null prints nothing; the other modes print exactly one line per counted packet |
| FastDecode.PacketsStep | src/bin/fast-decode.rs:109-129 | after a packet decoded, the run is its printed line followed by the run from the end of that packet |
| FastDecode.ReadAllPackets | src/bin/fast-decode.rs:105-134 | the loop returns the outcome, printed lines and count of the packet-mode specification, and the message count always equals the packet count |
| FastDecode.PacketsFromDeframes | src/bin/fast-decode.rs:109-129 | packet mode decodes, in order, the packets the stream deframes into, and ends with the deframing's stop when every packet decoded |
| FastDecode.DecodeEachOutcome | src/bin/fast-decode.rs:114-128 | decoding a list of packets counts one per decoded packet; it succeeds exactly when all decoded and the stream ended cleanly; a framing error is returned only after all packets decoded; stopping early means a decoder error; Null prints nothing, the other modes one line per packet |
| FastDecode.PacketRunMeaning | src/bin/fast-decode.rs:105-134 | `read_all_packets` succeeds exactly when every packet of the stream was decoded and the stream ended at a frame boundary; it counts one per decoded packet and skips none; a framing error is returned only once all packets before it were decoded; stopping earlier means the decoder failed; Null prints nothing, Text and Json one line per packet |
| FastDecode.FramedStreamDecoded | src/bin/fast-decode.rs:105-134 | a stream made of the frames of `ps`, with a decoder that accepts every payload, ends in success with `|ps|` packets counted and, unless Null, `|ps|` lines printed |
| FastDecode.AcceptedDecodeEach | src/bin/fast-decode.rs:114-128 | with a decoder that accepts every payload, every packet is counted |
| FastDecode.MessagesFrom | src/bin/fast-decode.rs:139-168 | the message loop from a cursor: never more messages counted than bytes remain; Null prints nothing; the other modes print exactly one line per counted message |
| FastDecode.MessagesStep | src/bin/fast-decode.rs:139-168 | after a message decoded, the run is its printed line followed by the run from where that message ended, and that point is inside the stream |
| FastDecode.ReadAllMessages | src/bin/fast-decode.rs:136-173 | the loop returns the outcome, printed lines and count of the message-mode specification |
| FastDecode.MessageRunMeaning | src/bin/fast-decode.rs:136-173 | after its `count` decoded messages, the loop reaches a decoder call that fails; it succeeds exactly when that failure is the decoder's end of file, and otherwise returns that failure; the cursor has moved at least one byte per message, which is assumed of the decoder (`Progresses`), not a property of the loop; Null prints nothing, the other modes one line per message |
| FastDecode.DecodeRun | src/bin/fast-decode.rs:57-76 | `decode` after opening: the mode chosen from the flags, then the packet loop under `--packet` and the message loop otherwise; never more messages than bytes of input |
| FastDecode.Decode | src/bin/fast-decode.rs:57-76 | `decode` returns the outcome and lines of the selected mode and loop, with `--packet` choosing the packet loop |
| FastDecode.QuietPrintsNothing | src/bin/fast-decode.rs:61-74 | with `--quiet` nothing is printed in either loop; without it, one line per decoded message |
| FastEncode.WritePacketsFrom | src/bin/fast-encode.rs:67-79 | the packet loop from line `i`: never more packets than lines left; the k-th packet written has sequence number `seqNum + k` and sub-channel 0 |
| FastEncode.WriteAllPackets | src/bin/fast-encode.rs:61-85 | the loop returns the outcome, the packets written and the output of the packet-mode specification; packet count and message count both equal the number of packets written |
| FastEncode.WritePacketsMeaning | src/bin/fast-encode.rs:61-79 | the k-th packet written carries sequence number `seqNum + k`, sub-channel 0 and the encoder's output for the k-th line; the loop succeeds exactly when every line was written; otherwise it returns the error of the first line it could not read, parse, encode or write |
| FastEncode.WriteMessagesFrom | src/bin/fast-encode.rs:90-94 | the message loop from line `i`: never more messages counted than lines left |
| FastEncode.WriteAllMessages | src/bin/fast-encode.rs:87-99 | the loop returns the outcome, message count and output of the message-mode specification |
| FastEncode.WriteMessagesMeaning | src/bin/fast-encode.rs:87-99 | one message is counted per line encoded; the loop succeeds exactly when every line was encoded; otherwise it returns the error of the first line it could not read, parse or encode |
| FastEncode.EncodeRun | src/bin/fast-encode.rs:53-57 | `encode` after opening: the packet loop under `--packet` and the message loop otherwise; never more messages than lines |
| FastEncode.Encode | src/bin/fast-encode.rs:47-59 | `encode` runs the packet loop under `--packet` and the message loop otherwise, and returns that loop's outcome, count and output |
| FastEncode.EncodeCountsLines | src/bin/fast-encode.rs:47-99 | in both loops, success means every line became a message, and there are never more messages than lines |
| FastEncode.WrittenFrames | src/bin/fast-encode.rs:67-79 | with a writer that appends each packet's frame, the output is the frames of the packets written, in order |
| FastEncode.EncodedStreamDeframes | src/bin/fast-encode.rs:61-79 | what `fast-encode --packet` writes, `Packet::read` deframes into exactly the packets written, numbered 1, 2, 3 … on sub-channel 0, then a clean end of stream |

## Left out

- `src/lib.rs` is not part of this model. It opens a file or the standard streams and loads the template XML for `fast-encode`.
- Configuration and opening are not modelled, nor their failures: `load_templates` and `get_data_reader` in `decode` (src/bin/fast-decode.rs:58-59, defined at 78-103), and `Encoder::new_from_xml`, `get_data_reader` and `get_data_writer` in `encode` (src/bin/fast-encode.rs:48-52). `FastDecode.Decode` and `FastEncode.Encode` start from an opened stream and a loaded codec: the input is the byte array or the line items it would produce, the codec's initial state is a parameter.
- `src/message.rs` is not part of this model. `NullMessageFactory` is a set of no-op callbacks, represented by the Null output mode, which prints nothing.
- The external codec types (`Decoder`, `Encoder`, `TextMessageFactory`, `JsonMessageFactory`, `TextMessageVisitor`) are foreign code. They are function-typed parameters with an abstract state.
  - The decoder's output text under a mode is whatever the decoder parameter returns for that mode.
  - The Json branch prints `msg.text` in the source (src/bin/fast-decode.rs:124), and the model prints the decoder's text in that branch too.
- `Packet::write` is not modelled; the encode loops take the writer as a parameter. A failing write, like a failing `encode_stream`, reports the output as the failed call left it, since nothing undoes a partial write. `Packets.EncodePacket`, `VarUint.EncodeVarUint` and `FastEncode.AppendFrame` are specification-level encoders that only state which bytes `Packet::read` accepts.
- Timing and statistics are not modelled: `SystemTime`, `elapsed`, `format_duration`, and the `f64` microseconds per message. The source computes that average even when the count is 0, where the `f64` division gives NaN or infinity.
- The failure of `start.elapsed()?` after a loop has finished (src/bin/fast-decode.rs:130, 169; src/bin/fast-encode.rs:81, 95) is not modelled: when the system clock has moved backwards, the source turns a finished run into an error. Every "succeeds exactly when" of the model assumes the clock does not fail.
- Argument parsing (`clap`), `env_logger`, the log lines, `println!` formatting and the flush of the output are out of scope. A printed line is an element of the returned sequence of lines.
- I/O errors other than a stream that runs out are not modelled.
  - `read_var_uint` treats any error on its first byte as the end of the stream; in the model this is "no byte left".
  - An I/O error while reading a line of input is the `Unreadable` line item.
- The `u64` counters in the drive loops are unbounded naturals; they would need 2^64 messages to overflow.
- `len as usize` and `Vec::with_capacity` on a huge length field are not modelled. The model simply reads `len - 5` bytes into a fresh array and reports an unexpected end of file when fewer remain, instead of failing to allocate.
- `unsafe { payload.set_len(...) }` is modelled as that fresh array, which `read_exact` fills completely before it is used.
- FastEncode.WriteAllPackets: requires fewer than 2^32 - 1 input lines, because the `u32` sequence number `seq_num += 1` overflows after packet 2^32 - 1. The overflow itself is not modelled.
- FastEncode.Encode, FastEncode.EncodeRun and FastEncode.EncodeCountsLines carry the same bound, in packet mode only; the message loop counts in a `u64` and accepts any number of lines.
- FastDecode.ReadAllMessages: requires every message the stream decoder reports to have consumed at least one byte (and no more than remain). Without this the source's loop need not terminate, and the model has no way to express that.
- FastDecode.Decode, FastDecode.DecodeRun and FastDecode.QuietPrintsNothing carry the same requirement, in message mode only.
