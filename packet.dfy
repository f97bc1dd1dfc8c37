/** The packet envelope: a stop-bit length, a 4-byte big-endian sequence
    number, a 1-byte sub-channel and `length - 5` payload bytes. */
module Packets {
  import opened Io
  import opened VarUint

  datatype Packet = Packet(seqNum: u32, subChannel: byte, payload: seq<byte>)

  /** Bytes taken by the sequence number and the sub-channel. */
  const HEADER_LEN: nat := 5

  /** `(h[0] as u32) << 24 | (h[1] as u32) << 16 | (h[2] as u32) << 8 | (h[3] as u32)`:
      the shifted bytes do not overlap, so each `|` is an addition. */
  function BigEndian32(h: seq<byte>): u32
    requires |h| >= 4
  {
    (h[0] as int) * 0x100_0000 + (h[1] as int) * 0x1_0000 + (h[2] as int) * 0x100 + h[3]
  }

  /** What `Packet::read` yields on the stream `s` read from `pos`. */
  function DecodePacket(s: seq<byte>, pos: nat): (r: Read<Packet>)
    requires pos <= |s|
    ensures r.Eof? <==> pos == |s|
    ensures r.Ok? ==> pos < r.next <= |s|
  {
    match DecodeVarUint(s, pos)
    case Eof => Eof
    case Err(e) => Err(e)
    case Ok(len, start) =>
      if len < HEADER_LEN then Err(InvalidPacketLength(len))
      else if start + HEADER_LEN > |s| then Err(UnexpectedEof)
      else if start + len > |s| then Err(UnexpectedEof)
      else Ok(Packet(BigEndian32(s[start..start + 4]), s[start + 4], s[start + HEADER_LEN..start + len]),
              start + len)
  }

  /** `read_exact`: fill `buf` with the next `buf.Length` bytes of the stream,
      or fail when fewer remain. */
  method ReadExact(data: array<byte>, pos: nat, buf: array<byte>) returns (ok: bool, next: nat)
    requires pos <= data.Length && buf != data
    modifies buf
    ensures ok <==> pos + buf.Length <= data.Length
    ensures ok ==> next == pos + buf.Length && buf[..] == data[pos..next]
  {
    if pos + buf.Length > data.Length {
      return false, pos;
    }
    forall k | 0 <= k < buf.Length {
      buf[k] := data[pos + k];
    }
    return true, pos + buf.Length;
  }

  /** `Packet::read` over a byte array with a cursor. */
  method ReadPacket(data: array<byte>, pos: nat) returns (r: Read<Packet>)
    requires pos <= data.Length
    ensures r == DecodePacket(data[..], pos)
  {
    ghost var s := data[..];
    var field := ReadVarUint(data, pos);
    var len: nat, start: nat;
    match field {
      case Eof => return Eof;
      case Err(e) => return Err(e);
      case Ok(v, n) =>
        if v < HEADER_LEN {
          ShortLengthRejected(s, pos);
          return Err(InvalidPacketLength(v));
        }
        len, start := v - HEADER_LEN, n;
    }
    var header := new byte[HEADER_LEN];
    var ok, next := ReadExact(data, start, header);
    if !ok {
      TruncatedFrameRejected(s, pos);
      return Err(UnexpectedEof);
    }
    var payload := new byte[len];
    ok, next := ReadExact(data, next, payload);
    if !ok {
      TruncatedFrameRejected(s, pos);
      return Err(UnexpectedEof);
    }
    assert header[..4] == s[start..start + 4];
    DecodeFramed(s, pos, len + HEADER_LEN, start);
    return Ok(Packet(BigEndian32(header[..4]), header[4], payload[..]), next);
  }

  /** A length field below 5 is rejected, never taken as the end of the stream. */
  lemma ShortLengthRejected(s: seq<byte>, pos: nat)
    requires pos <= |s| && DecodeVarUint(s, pos).Ok? && DecodeVarUint(s, pos).value < HEADER_LEN
    ensures DecodePacket(s, pos) == Err(InvalidPacketLength(DecodeVarUint(s, pos).value))
  {
  }

  /** A frame with fewer bytes after its length field than the field announces
      is an error, never a shorter packet. */
  lemma TruncatedFrameRejected(s: seq<byte>, pos: nat)
    requires pos <= |s| && DecodeVarUint(s, pos).Ok?
    requires var f := DecodeVarUint(s, pos); f.value >= HEADER_LEN && f.next + f.value > |s|
    ensures DecodePacket(s, pos) == Err(UnexpectedEof)
  {
  }

  /** What a packet read consumes and what it holds: the length field, then
      exactly `len` bytes, of which the first four are the big-endian sequence
      number, the fifth the sub-channel and the rest the payload. */
  lemma PacketLayout(s: seq<byte>, pos: nat)
    requires pos <= |s| && DecodePacket(s, pos).Ok?
    ensures var f := DecodeVarUint(s, pos); var r := DecodePacket(s, pos);
            f.Ok? && f.value == HEADER_LEN + |r.value.payload| &&
            r.next == f.next + f.value &&
            r.value.seqNum == BigEndian32(s[f.next..f.next + 4]) &&
            r.value.subChannel == s[f.next + 4] &&
            r.value.payload == s[f.next + HEADER_LEN..r.next]
  {
  }

  // ---------------------------------------------------------------------
  // A specification-level writer (the writer is not part of this model)

  /** The four big-endian bytes of `x`. */
  function Be32Bytes(x: u32): (r: seq<byte>)
  {
    var y := x / 0x100;
    var z := y / 0x100;
    [z / 0x100, z % 0x100, y % 0x100, x % 0x100]
  }

  lemma BigEndian32OfBytes(x: u32)
    ensures |Be32Bytes(x)| == 4 && BigEndian32(Be32Bytes(x)) == x
  {
    var y := x / 0x100;
    var z := y / 0x100;
    assert x == y * 0x100 + x % 0x100;
    assert y == z * 0x100 + y % 0x100;
    assert z == (z / 0x100) * 0x100 + z % 0x100;
  }

  /** The frame of `p`: the stop-bit length `5 + |payload|`, the header, the payload. */
  function EncodePacket(p: Packet): (r: seq<byte>)
  {
    EncodeVarUint(HEADER_LEN + |p.payload|) + Be32Bytes(p.seqNum) + [p.subChannel] + p.payload
  }

  /** A slice of the part after a prefix. */
  lemma SliceAfter(a: seq<byte>, t: seq<byte>, i: nat, j: nat)
    requires i <= j <= |t|
    ensures (a + t)[|a| + i..|a| + j] == t[i..j]
  {
  }

  /** A packet is read once its length field is read and enough bytes follow it. */
  lemma DecodeFramed(s: seq<byte>, pos: nat, len: u64, start: nat)
    requires pos <= |s| && DecodeVarUint(s, pos) == Ok(len, start)
    requires HEADER_LEN <= len && start + len <= |s|
    ensures DecodePacket(s, pos)
         == Ok(Packet(BigEndian32(s[start..start + 4]), s[start + 4], s[start + HEADER_LEN..start + len]), start + len)
  {
  }

  /** Reading the frame of `p`, wherever it sits in a stream and whatever
      follows it, yields `p` and leaves the cursor at the start of what follows. */
  lemma ReadEncodedPacket(pre: seq<byte>, p: Packet, rest: seq<byte>)
    requires HEADER_LEN + |p.payload| < U64_LIMIT
    ensures DecodePacket(pre + EncodePacket(p) + rest, |pre|) == Ok(p, |pre| + |EncodePacket(p)|)
  {
    LengthFieldOfFrame(pre, p, rest);
    FrameBody(pre, p, rest);
    ReadFrameAt(pre + EncodePacket(p) + rest, |pre|, p, |pre| + |EncodeVarUint(HEADER_LEN + |p.payload|)|);
  }

  /** The length field of a frame reads back as `5 + |payload|`. */
  lemma LengthFieldOfFrame(pre: seq<byte>, p: Packet, rest: seq<byte>)
    requires HEADER_LEN + |p.payload| < U64_LIMIT
    ensures var len := HEADER_LEN + |p.payload|;
            DecodeVarUint(pre + EncodePacket(p) + rest, |pre|) == Ok(len, |pre| + |EncodeVarUint(len)|)
  {
    var len := HEADER_LEN + |p.payload|;
    var t := Be32Bytes(p.seqNum) + [p.subChannel] + p.payload + rest;
    assert pre + EncodePacket(p) + rest == pre + EncodeVarUint(len) + t;
    DecodeEncoded(pre, len, t);
    ModOfDecomposition(len, 0, len);
  }

  /** Where the header and the payload of `p` sit in its frame. */
  lemma FrameBody(pre: seq<byte>, p: Packet, rest: seq<byte>)
    ensures var s := pre + EncodePacket(p) + rest;
            var start := |pre| + |EncodeVarUint(HEADER_LEN + |p.payload|)|;
            |s| == start + HEADER_LEN + |p.payload| + |rest| &&
            |pre| + |EncodePacket(p)| == start + HEADER_LEN + |p.payload| &&
            s[start..start + 4] == Be32Bytes(p.seqNum) && s[start + 4] == p.subChannel &&
            s[start + HEADER_LEN..start + HEADER_LEN + |p.payload|] == p.payload
  {
    var a := pre + EncodeVarUint(HEADER_LEN + |p.payload|);
    var t := Be32Bytes(p.seqNum) + [p.subChannel] + p.payload + rest;
    assert pre + EncodePacket(p) + rest == a + t;
    SliceAfter(a, t, 0, 4);
    SliceAfter(a, t, HEADER_LEN, HEADER_LEN + |p.payload|);
    assert t[0..4] == Be32Bytes(p.seqNum);
    assert t[HEADER_LEN..HEADER_LEN + |p.payload|] == p.payload;
  }

  /** A packet is read back from a stream holding its length field, then its
      header bytes and its payload. */
  lemma ReadFrameAt(s: seq<byte>, pos: nat, p: Packet, start: nat)
    requires pos <= |s| && DecodeVarUint(s, pos) == Ok(HEADER_LEN + |p.payload|, start)
    requires start + HEADER_LEN + |p.payload| <= |s|
    requires s[start..start + 4] == Be32Bytes(p.seqNum) && s[start + 4] == p.subChannel
    requires s[start + HEADER_LEN..start + HEADER_LEN + |p.payload|] == p.payload
    ensures DecodePacket(s, pos) == Ok(p, start + HEADER_LEN + |p.payload|)
  {
    DecodeFramed(s, pos, HEADER_LEN + |p.payload|, start);
    BigEndian32OfBytes(p.seqNum);
  }

  /** The round trip of one packet. */
  lemma PacketRoundTrip(p: Packet)
    requires HEADER_LEN + |p.payload| < U64_LIMIT
    ensures DecodePacket(EncodePacket(p), 0) == Ok(p, |EncodePacket(p)|)
  {
    var pre: seq<byte> := [];
    var rest: seq<byte> := [];
    assert pre + EncodePacket(p) + rest == EncodePacket(p);
    ReadEncodedPacket(pre, p, rest);
  }

  /** The smallest frame: an empty payload under the length field 5. */
  lemma EmptyPacketFrame()
    ensures EncodePacket(Packet(0, 0, [])) == [0x85, 0, 0, 0, 0, 0]
    ensures DecodePacket([0x85, 0, 0, 0, 0, 0], 0) == Ok(Packet(0, 0, []), 6)
  {
    assert EncodeVarUint(5) == [0x85];
    assert Be32Bytes(0) == [0, 0, 0, 0];
    PacketRoundTrip(Packet(0, 0, []));
  }

  /** Length field 10: sequence number 1, sub-channel 5, five payload bytes. */
  lemma SmallPacketFrame()
    ensures EncodePacket(Packet(1, 5, [1, 2, 3, 4, 5])) == [0x8A, 0, 0, 0, 1, 5, 1, 2, 3, 4, 5]
    ensures DecodePacket([0x8A, 0, 0, 0, 1, 5, 1, 2, 3, 4, 5], 0) == Ok(Packet(1, 5, [1, 2, 3, 4, 5]), 11)
  {
    assert EncodeVarUint(10) == [0x8A];
    assert Be32Bytes(1) == [0, 0, 0, 1];
    PacketRoundTrip(Packet(1, 5, [1, 2, 3, 4, 5]));
  }

  /** A length field of 4 is rejected. */
  lemma LengthFourRejected()
    ensures DecodePacket([0x84, 0, 0, 0, 0], 0) == Err(InvalidPacketLength(4))
  {
    var s: seq<byte> := [0x84, 0, 0, 0, 0];
    FirstStopAt(s, 0, 0);
    assert s[0..1] == [0x84];
    assert GroupsValue([0x84]) == 4;
  }

  /** A length field of 6 followed by five bytes is one byte short. */
  lemma OneByteShortRejected()
    ensures DecodePacket([0x86, 0, 0, 0, 0, 0], 0) == Err(UnexpectedEof)
  {
    var s: seq<byte> := [0x86, 0, 0, 0, 0, 0];
    FirstStopAt(s, 0, 0);
    assert s[0..1] == [0x86];
    assert GroupsValue([0x86]) == 6;
  }

  // ---------------------------------------------------------------------
  // A stream of frames

  /** The packets a stream holds from `pos`, in order, up to the first read
      that does not yield a packet, and what that read yields: `None` for a
      clean end of stream, or its error. */
  datatype Deframed = Deframed(packets: seq<Packet>, stop: Option<Error>)

  function Deframe(s: seq<byte>, pos: nat): (d: Deframed)
    requires pos <= |s|
    ensures |d.packets| <= |s| - pos
    ensures d.stop.Some? ==> d.stop.value == UnexpectedEof || d.stop.value.InvalidPacketLength?
    decreases |s| - pos
  {
    match DecodePacket(s, pos)
    case Eof => Deframed([], None)
    case Err(e) => Deframed([], Some(e))
    case Ok(p, next) =>
      var d := Deframe(s, next);
      Deframed([p] + d.packets, d.stop)
  }

  lemma DeframeStep(s: seq<byte>, pos: nat, p: Packet, next: nat)
    requires pos <= |s| && DecodePacket(s, pos) == Ok(p, next)
    ensures Deframe(s, pos) == Deframed([p] + Deframe(s, next).packets, Deframe(s, next).stop)
  {
  }

  /** Frames of all the packets, one after another. */
  function EncodePackets(ps: seq<Packet>): seq<byte>
  {
    if ps == [] then [] else EncodePacket(ps[0]) + EncodePackets(ps[1..])
  }

  ghost predicate Framable(ps: seq<Packet>)
  {
    forall k :: 0 <= k < |ps| ==> HEADER_LEN + |ps[k].payload| < U64_LIMIT
  }

  /** A stream made of the frames of `ps` yields exactly `ps`, then a clean
      end of stream. */
  lemma {:induction false} DeframeEncoded(pre: seq<byte>, ps: seq<Packet>)
    requires Framable(ps)
    ensures Deframe(pre + EncodePackets(ps), |pre|) == Deframed(ps, None)
    decreases |ps|
  {
    var s := pre + EncodePackets(ps);
    if ps == [] {
      assert s == pre;
    } else {
      var e := EncodePacket(ps[0]);
      var tail := EncodePackets(ps[1..]);
      assert s == pre + e + tail;
      ReadEncodedPacket(pre, ps[0], tail);
      var pre' := pre + e;
      assert s == pre' + tail;
      assert Framable(ps[1..]) by {
        forall k | 0 <= k < |ps[1..]| ensures HEADER_LEN + |ps[1..][k].payload| < U64_LIMIT {
          assert ps[1..][k] == ps[k + 1];
        }
      }
      DeframeEncoded(pre', ps[1..]);
      DeframeStep(s, |pre|, ps[0], |pre'|);
      assert [ps[0]] + ps[1..] == ps;
    }
  }
}
