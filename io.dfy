/** Machine types, the error kinds that travel through `anyhow::Result`, and the
    three-way outcome of reading one unit from a byte stream. */
module Io {

  const U32_LIMIT: int := 0x1_0000_0000
  const U64_LIMIT: int := 0x1_0000_0000_0000_0000

  /** `u8`: one byte of a stream. */
  type byte = b: int | 0 <= b < 0x100

  /** `u32`, the type of a packet's sequence number. */
  type u32 = x: int | 0 <= x < 0x1_0000_0000

  /** `u64`, the type of a decoded stop-bit integer. */
  type u64 = x: int | 0 <= x < 0x1_0000_0000_0000_0000

  datatype Option<T> = None | Some(value: T)

  /** What the external codec library reports when it cannot produce a message:
      its own end-of-file condition, or any other failure. */
  datatype CodecError = EndOfFile | Malformed(reason: string)

  /** The errors the core propagates with `?`. */
  datatype Error =
    | UnexpectedEof                   // `read_exact` ran out of bytes
    | InvalidPacketLength(len: u64)   // a length field below 5
    | Decoder(cause: CodecError)      // `decode_vec` / `decode_stream` failed
    | LineUnreadable                  // an item of `input.lines()` was an I/O error
    | TextUnparsable                  // `TextMessageVisitor::from_text` failed
    | EncoderFailure                  // `encode_vec` / `encode_stream` failed
    | WriteFailure                    // `Packet::write` failed

  /** The result of reading one unit from a stream at a cursor: a clean end of
      stream (nothing could be read), an error, or a value and the cursor just
      after the bytes it consumed. */
  datatype Read<T> = Eof | Err(error: Error) | Ok(value: T, next: nat)

  /** `Result<()>` of a drive loop. */
  datatype Outcome = Success | Failure(error: Error)
}
