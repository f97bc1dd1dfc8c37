/** The stop-bit unsigned integer of FAST transfer encoding, as `read_var_uint`
    decodes it: 7 data bits per byte, most significant group first, the first
    byte whose top bit is set ends the number. */
module VarUint {
  import opened Io

  /** The data bits of a byte, `b & 0x7f`. */
  function Low7(b: byte): int { b % 0x80 }

  /** The stop flag of a byte, `b & 0x80 == 0x80`. */
  predicate IsStop(b: byte) { b >= 0x80 }

  /** The number the 7-bit groups of `s` spell out, most significant group
      first, with no bound on its size. */
  function GroupsValue(s: seq<byte>): nat
  {
    if s == [] then 0 else GroupsValue(s[..|s| - 1]) * 0x80 + Low7(s[|s| - 1])
  }

  /** The index of the first stop byte of `s` at or after `i`. */
  function FirstStop(s: seq<byte>, i: nat): (r: Option<nat>)
    requires i <= |s|
    ensures r.Some? ==> i <= r.value < |s| && IsStop(s[r.value])
    ensures r.Some? ==> forall k :: i <= k < r.value ==> !IsStop(s[k])
    ensures r.None? ==> forall k :: i <= k < |s| ==> !IsStop(s[k])
    decreases |s| - i
  {
    if i == |s| then None
    else if IsStop(s[i]) then Some(i)
    else FirstStop(s, i + 1)
  }

  /** What `read_var_uint` yields on the stream `s` read from `pos`: no value
      when not even the first byte is there; an error when the stream ends
      before a stop byte; otherwise the value of the groups up to and including
      the first stop byte, reduced to 64 bits, and the cursor just after it. */
  function DecodeVarUint(s: seq<byte>, pos: nat): (r: Read<u64>)
    requires pos <= |s|
    ensures r.Eof? <==> pos == |s|
    ensures r.Err? ==> r.error == UnexpectedEof && forall k :: pos <= k < |s| ==> !IsStop(s[k])
    ensures r.Ok? ==> pos < r.next <= |s| && IsStop(s[r.next - 1])
    ensures r.Ok? ==> forall k :: pos <= k < r.next - 1 ==> !IsStop(s[k])
  {
    if pos == |s| then Eof
    else match FirstStop(s, pos)
      case None => Err(UnexpectedEof)
      case Some(j) => Ok(GroupsValue(s[pos..j + 1]) % 0x1_0000_0000_0000_0000, j + 1)
  }

  /** One turn of the loop: `value <<= 7; value |= (b & 0x7f) as u64`.
      The shift drops the bits pushed past bit 63; the low 7 bits are then
      free, so the `|` is an addition. */
  function ShiftIn(value: u64, b: byte): (r: u64)
    ensures r == (value * 0x80 + Low7(b)) % 0x1_0000_0000_0000_0000
  {
    (value * 0x80) % 0x1_0000_0000_0000_0000 + Low7(b)
  }

  lemma GroupsValueSnoc(t: seq<byte>, b: byte)
    ensures GroupsValue(t + [b]) == GroupsValue(t) * 0x80 + Low7(b)
  {
    assert (t + [b])[..|t|] == t;
  }

  /** Reducing modulo 2^64 before or after a step of the loop is the same. */
  lemma ShiftInMod(g: nat, b: byte)
    ensures ShiftIn(g % 0x1_0000_0000_0000_0000, b) == (g * 0x80 + Low7(b)) % 0x1_0000_0000_0000_0000
  {
    var r := g % 0x1_0000_0000_0000_0000;
    var q := g / 0x1_0000_0000_0000_0000;
    var t := r * 0x80;
    var k := t / 0x1_0000_0000_0000_0000;
    var low := t % 0x1_0000_0000_0000_0000;
    assert 0 <= k < 0x80;
    assert low == 0x80 * (r - k * 0x200_0000_0000_0000);
    assert low + Low7(b) < 0x1_0000_0000_0000_0000;
    assert g * 0x80 + Low7(b) == (q * 0x80 + k) * 0x1_0000_0000_0000_0000 + (low + Low7(b));
    ModOfDecomposition(g * 0x80 + Low7(b), q * 0x80 + k, low + Low7(b));
  }

  lemma ModOfDecomposition(x: int, d: int, rem: int)
    requires 0 <= rem < 0x1_0000_0000_0000_0000
    requires x == d * 0x1_0000_0000_0000_0000 + rem
    ensures x % 0x1_0000_0000_0000_0000 == rem
  {
  }

  /** One turn of the loop keeps the accumulator equal to the value of the
      bytes read so far, reduced to 64 bits. */
  lemma ShiftInStep(s: seq<byte>, pos: nat, i: nat, value: u64)
    requires pos < i <= |s|
    requires value == GroupsValue(s[pos..i - 1]) % 0x1_0000_0000_0000_0000
    ensures ShiftIn(value, s[i - 1]) == GroupsValue(s[pos..i]) % 0x1_0000_0000_0000_0000
  {
    ShiftInMod(GroupsValue(s[pos..i - 1]), s[i - 1]);
    GroupsValueSnoc(s[pos..i - 1], s[i - 1]);
    assert s[pos..i - 1] + [s[i - 1]] == s[pos..i];
  }

  /** `read_var_uint` over a byte array with a cursor. */
  method ReadVarUint(data: array<byte>, pos: nat) returns (r: Read<u64>)
    requires pos <= data.Length
    ensures r == DecodeVarUint(data[..], pos)
  {
    if pos == data.Length {
      // failing to read the first byte is the end of the stream
      return Eof;
    }
    ghost var s := data[..];
    var value: u64 := 0;
    var b := data[pos];
    var i := pos + 1;
    while true
      invariant pos < i <= data.Length
      invariant b == s[i - 1]
      invariant forall k :: pos <= k < i - 1 ==> !IsStop(s[k])
      invariant value == GroupsValue(s[pos..i - 1]) % 0x1_0000_0000_0000_0000
      decreases data.Length - i
    {
      ShiftInStep(s, pos, i, value);
      value := ShiftIn(value, b);
      if IsStop(b) {
        FirstStopAt(s, pos, i - 1);
        return Ok(value, i);
      }
      if i == data.Length {
        FirstStopNone(s, pos);
        return Err(UnexpectedEof);
      }
      b := data[i];
      i := i + 1;
    }
  }

  /** FirstStop finds a stop byte that has no stop byte before it. */
  lemma {:induction false} FirstStopAt(s: seq<byte>, i: nat, j: nat)
    requires i <= j < |s| && IsStop(s[j])
    requires forall k :: i <= k < j ==> !IsStop(s[k])
    ensures FirstStop(s, i) == Some(j)
    decreases j - i
  {
    if i < j { FirstStopAt(s, i + 1, j); }
  }

  /** FirstStop finds nothing where there is no stop byte. */
  lemma {:induction false} FirstStopNone(s: seq<byte>, i: nat)
    requires i <= |s|
    requires forall k :: i <= k < |s| ==> !IsStop(s[k])
    ensures FirstStop(s, i) == None
    decreases |s| - i
  {
    if i < |s| { FirstStopNone(s, i + 1); }
  }

  // ---------------------------------------------------------------------
  // A specification-level encoder (the writer is not part of this model)

  /** The continuation bytes (top bit clear) that carry the groups of `v`,
      most significant first; none for 0. */
  function Groups(v: nat): (r: seq<byte>)
    ensures forall k :: 0 <= k < |r| ==> !IsStop(r[k])
    decreases v
  {
    if v == 0 then [] else Groups(v / 0x80) + [v % 0x80]
  }

  /** The stop-bit encoding of `v`: the high groups as continuation bytes, the
      lowest group with the stop bit set. */
  function EncodeVarUint(v: nat): (r: seq<byte>)
    ensures |r| >= 1 && IsStop(r[|r| - 1])
    ensures forall k :: 0 <= k < |r| - 1 ==> !IsStop(r[k])
  {
    Groups(v / 0x80) + [v % 0x80 + 0x80]
  }

  lemma {:induction false} GroupsValueOfGroups(v: nat)
    ensures GroupsValue(Groups(v)) == v
    decreases v
  {
    if v != 0 {
      GroupsValueOfGroups(v / 0x80);
      GroupsValueSnoc(Groups(v / 0x80), v % 0x80);
    }
  }

  /** The encoding spells out `v`. */
  lemma GroupsValueOfEncoding(v: nat)
    ensures GroupsValue(EncodeVarUint(v)) == v
  {
    var high := Groups(v / 0x80);
    GroupsValueOfGroups(v / 0x80);
    GroupsValueSnoc(high, v % 0x80 + 0x80);
    assert Low7(v % 0x80 + 0x80) == v % 0x80;
    assert GroupsValue(EncodeVarUint(v)) == (v / 0x80) * 0x80 + v % 0x80;
  }

  /** Decoding the encoding of any `v`, wherever it sits in a stream and
      whatever follows it, consumes exactly the encoding and yields `v`
      reduced to 64 bits. */
  lemma DecodeEncoded(pre: seq<byte>, v: nat, rest: seq<byte>)
    ensures DecodeVarUint(pre + EncodeVarUint(v) + rest, |pre|)
         == Ok(v % 0x1_0000_0000_0000_0000, |pre| + |EncodeVarUint(v)|)
  {
    var e := EncodeVarUint(v);
    var s := pre + e + rest;
    var j := |pre| + |e| - 1;
    forall k | |pre| <= k < j ensures !IsStop(s[k]) {
      assert s[k] == e[k - |pre|];
    }
    assert s[j] == e[|e| - 1];
    FirstStopAt(s, |pre|, j);
    assert s[|pre|..j + 1] == e;
    GroupsValueOfEncoding(v);
  }

  /** The round trip for every 64-bit value. */
  lemma VarUintRoundTrip(v: u64, rest: seq<byte>)
    ensures DecodeVarUint(EncodeVarUint(v) + rest, 0) == Ok(v, |EncodeVarUint(v)|)
  {
    var pre: seq<byte> := [];
    assert pre + EncodeVarUint(v) + rest == EncodeVarUint(v) + rest;
    DecodeEncoded(pre, v, rest);
    ModOfDecomposition(v, 0, v);
  }

  /** A leading zero group adds nothing to the positional value. */
  lemma {:induction false} GroupsValueLeadingZero(t: seq<byte>)
    ensures GroupsValue([0] + t) == GroupsValue(t)
    decreases |t|
  {
    if t != [] {
      var init := t[..|t| - 1];
      assert ([0] + t)[..|t|] == [0] + init;
      GroupsValueLeadingZero(init);
    }
  }

  /** A leading `0x00` continuation byte does not change the value read, only
      the cursor, as long as another byte follows it. */
  lemma LeadingZeroByte(s: seq<byte>, pos: nat)
    requires pos + 1 < |s| && s[pos] == 0
    ensures DecodeVarUint(s, pos).Ok? <==> DecodeVarUint(s, pos + 1).Ok?
    ensures DecodeVarUint(s, pos).Ok? ==>
              DecodeVarUint(s, pos).value == DecodeVarUint(s, pos + 1).value &&
              DecodeVarUint(s, pos).next == DecodeVarUint(s, pos + 1).next
  {
    assert FirstStop(s, pos) == FirstStop(s, pos + 1);
    match FirstStop(s, pos + 1)
    case None =>
    case Some(j) =>
      assert s[pos..j + 1] == [0] + s[pos + 1..j + 1];
      GroupsValueLeadingZero(s[pos + 1..j + 1]);
  }

  /** Bits above bit 63 are dropped: the ten-byte encoding of 2^64 reads as 0. */
  lemma WrapsAt64Bits()
    ensures EncodeVarUint(U64_LIMIT) == [0x02, 0, 0, 0, 0, 0, 0, 0, 0, 0x80]
    ensures DecodeVarUint(EncodeVarUint(U64_LIMIT), 0) == Ok(0, 10)
  {
    assert Groups(0x2) == [0x02];
    assert Groups(0x100) == [0x02, 0];
    assert Groups(0x8000) == [0x02, 0, 0];
    assert Groups(0x40_0000) == [0x02, 0, 0, 0];
    assert Groups(0x2000_0000) == [0x02, 0, 0, 0, 0];
    assert Groups(0x10_0000_0000) == [0x02, 0, 0, 0, 0, 0];
    assert Groups(0x800_0000_0000) == [0x02, 0, 0, 0, 0, 0, 0];
    assert Groups(0x4_0000_0000_0000) == [0x02, 0, 0, 0, 0, 0, 0, 0];
    assert Groups(0x200_0000_0000_0000) == [0x02, 0, 0, 0, 0, 0, 0, 0, 0];
    DecodeEncoded([], U64_LIMIT, []);
    assert [] + EncodeVarUint(U64_LIMIT) + [] == EncodeVarUint(U64_LIMIT);
  }

  /** Small cases of the stop-bit coding. */
  lemma VarUintExamples()
    ensures EncodeVarUint(0) == [0x80]
    ensures EncodeVarUint(127) == [0xFF]
    ensures EncodeVarUint(128) == [0x01, 0x80]
    ensures DecodeVarUint([0x85], 0) == Ok(5, 1)
    ensures DecodeVarUint([0x01, 0x80], 0) == Ok(128, 2)
    ensures DecodeVarUint([0x01], 0) == Err(UnexpectedEof)
    ensures DecodeVarUint([], 0) == Eof
  {
    assert Groups(1) == [1];
    assert EncodeVarUint(5) == [0x85];
    VarUintRoundTrip(5, []);
    VarUintRoundTrip(128, []);
  }
}
