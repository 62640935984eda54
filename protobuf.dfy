/**
 * The unsigned base-128 varint of the Protocol Buffers wire format ("Base
 * 128 Varints" in the Protocol Buffers encoding documentation), read into a
 * 32-bit unsigned value. The input stream is a byte sequence and a position.
 */
module Protobuf {

  /** A byte of the input. */
  newtype uint8 = x: int | 0 <= x < 0x100

  /** The outcome of reading one varint. */
  datatype Varint =
    | Decoded(value: nat, next: nat)  // the value and the position after its last byte
    | EndOfInput                      // the input ended before a byte with a clear high bit
    | ShiftOverflow                   // a sixth byte would be shifted by 35 bits into a u32

  const U32_LIMIT: nat := 0x1_0000_0000

  /**
   * Byte `k` of a varint is shifted by `7 * k` bits. Only bytes 0 to 4 have
   * a shift below 32; this is `1 << (7 * k)` for them.
   */
  function Scale(k: nat): (s: nat)
    requires k < 5
    ensures s >= 1
  {
    if k == 0 then 1
    else if k == 1 then 0x80
    else if k == 2 then 0x4000
    else if k == 3 then 0x20_0000
    else 0x1000_0000
  }

  /** `1 << (32 - 7 * k)`: how many multiples of `Scale(k)` a u32 holds. */
  function Room(k: nat): (n: nat)
    requires k < 5
    ensures n * Scale(k) == U32_LIMIT
    ensures k + 1 < 5 ==> Scale(k + 1) == 0x80 * Scale(k)
  {
    if k == 0 then 0x1_0000_0000
    else if k == 1 then 0x200_0000
    else if k == 2 then 0x4_0000
    else if k == 3 then 0x800
    else 0x10
  }

  /** `b & 0x7F`: the byte without its continuation bit. */
  function Low(b: uint8): (low: nat)
    ensures low < 0x80
  {
    if b < 0x80 then b as nat else b as nat - 0x80
  }

  /**
   * `((b & 0x7F) as u32) << (7 * k)`: the low seven bits of `b` moved up to
   * byte `k`'s place. Only byte 4, at bit 28, loses bits: those past bit 31.
   */
  function Chunk(b: uint8, k: nat): nat
    requires k < 5
  {
    var low := Low(b);
    if k == 0 then low
    else if k == 1 then low * 0x80
    else if k == 2 then low * 0x4000
    else if k == 3 then low * 0x20_0000
    else (low % 0x10) * 0x1000_0000
  }

  // Arithmetic facts. The products in them are of a literal and an unknown
  // once `k` is split into its five cases.

  lemma ModSmall(x: nat, m: nat)
    requires x < m
    ensures x % m == x
  {
  }

  /** A chunk leaves room for every bit below byte `k` and takes at most seven bits of its own. */
  lemma ChunkBounds(b: uint8, k: nat)
    requires k < 5
    ensures Chunk(b, k) + Scale(k) <= U32_LIMIT
    ensures Chunk(b, k) <= 0x7F * Scale(k)
  {
    var low := Low(b);
    if k < 4 {
      ModSmall(low, Room(k));
    }
  }

  /** The chunk of a byte whose low seven bits fit in the room left at byte `k`. */
  lemma ChunkOf(b: uint8, k: nat, low: nat)
    requires k < 5 && Low(b) == low && low < Room(k)
    ensures Chunk(b, k) == low * Scale(k)
  {
    ModSmall(low, Room(k));
  }

  /**
   * A chunk is a multiple of `Scale(k)`, so it shares no bit with a value
   * below `Scale(k)`: or-ing it into such a value is adding it, and the sum
   * stays below the next byte's place.
   */
  lemma ChunkAligned(b: uint8, k: nat, value: nat)
    requires k < 5 && value < Scale(k)
    ensures Chunk(b, k) % Scale(k) == 0
    ensures k + 1 < 5 ==> value + Chunk(b, k) < Scale(k + 1)
  {
    ChunkBounds(b, k);
    var _ := Room(k);
  }

  /** The most bytes a varint can take from byte `k` on. */
  function Steps(k: nat): nat {
    if k >= 5 then 0 else 5 - k
  }

  /** Adds `v` to a decoded value; failures pass through. */
  function Offset(v: nat, r: Varint): Varint {
    match r
    case Decoded(x, next) => Decoded(v + x, next)
    case _ => r
  }

  /**
   * The varint starting at `pos` whose first byte is byte `k`: byte k holds
   * bits 7k to 7k+6 in its low seven bits, and a clear high bit marks the
   * last byte.
   */
  function Decode(input: seq<uint8>, pos: nat, k: nat): (r: Varint)
    requires pos <= |input|
    ensures r.Decoded? ==> k < 5
    ensures r.Decoded? ==> pos < r.next <= |input| && r.next - pos <= Steps(k)
    decreases |input| - pos
  {
    if pos == |input| then EndOfInput
    else if k >= 5 then ShiftOverflow
    else
      var low := Chunk(input[pos], k);
      if input[pos] < 0x80 then Decoded(low, pos + 1)
      else Offset(low, Decode(input, pos + 1, k + 1))
  }

  /** A decoded value fits in the bits from byte `k`'s place up to bit 31. */
  lemma {:induction false} DecodeBound(input: seq<uint8>, pos: nat, k: nat)
    requires pos <= |input| && Decode(input, pos, k).Decoded?
    ensures Decode(input, pos, k).value + Scale(k) <= U32_LIMIT
    decreases |input| - pos
  {
    ChunkBounds(input[pos], k);
    if input[pos] >= 0x80 {
      DecodeBound(input, pos + 1, k + 1);
    }
  }

  /**
   * Where decoding stops: after the first byte with a clear high bit; at the
   * end of the input when it ends within `Steps(k)` bytes that all have it
   * set; and at the byte after `Steps(k)` bytes with it set, which would be
   * shifted past bit 31.
   */
  lemma {:induction false} DecodeStops(input: seq<uint8>, pos: nat, k: nat)
    requires pos <= |input|
    ensures var r := Decode(input, pos, k);
      r.Decoded? ==> input[r.next - 1] < 0x80 && forall i :: pos <= i < r.next - 1 ==> input[i] >= 0x80
    ensures Decode(input, pos, k).EndOfInput? <==>
      |input| - pos <= Steps(k) && forall i :: pos <= i < |input| ==> input[i] >= 0x80
    ensures Decode(input, pos, k).ShiftOverflow? <==>
      pos + Steps(k) < |input| && forall i :: pos <= i < pos + Steps(k) ==> input[i] >= 0x80
    decreases |input| - pos
  {
    if pos < |input| && k < 5 && input[pos] >= 0x80 {
      DecodeStops(input, pos + 1, k + 1);
    }
  }

  /** `read_uvarint`: consumes bytes up to and including the first with a clear high bit. */
  method ReadUvarint(input: seq<uint8>, pos: nat) returns (r: Varint)
    requires pos <= |input|
    ensures r == Decode(input, pos, 0)
    ensures r.Decoded? ==> r.value < U32_LIMIT
  {
    var value: nat := 0;
    var shift: nat := 0;
    var k: nat := 0;  // the byte number, shift / 7
    var at := pos;
    while true
      invariant pos <= at <= |input|
      invariant shift == 7 * k
      invariant k < 5 ==> value < Scale(k)
      invariant Decode(input, pos, 0) == Offset(value, Decode(input, at, k))
      decreases |input| - at
    {
      if at == |input| {
        return EndOfInput;
      }
      var b := input[at];
      at := at + 1;
      if shift >= 32 {
        // The source's `<<` by 32 bits or more panics.
        return ShiftOverflow;
      }
      // The source's `|=`: the chunk lies at or above bit `shift` and every
      // earlier bit below it, so or-ing is adding.
      ChunkAligned(b, k, value);
      value := value + Chunk(b, k);
      if b < 0x80 {
        break;
      }
      shift, k := shift + 7, k + 1;
    }
    r := Decoded(value, at);
    DecodeBound(input, pos, 0);
  }

  /** The source's test vectors. */
  lemma TestVectors()
    ensures Decode([0x80], 0, 0) == EndOfInput
    ensures Decode([0x00], 0, 0) == Decoded(0, 1)
    ensures Decode([0x03], 0, 0) == Decoded(3, 1)
    ensures Decode([0x8E, 0x02], 0, 0) == Decoded(270, 2)
    ensures Decode([0x9E, 0xA7, 0x05], 0, 0) == Decoded(86942, 3)
  {
    assert Decode([0x8E, 0x02], 1, 1) == Decoded(0x100, 2);
    assert Decode([0x9E, 0xA7, 0x05], 2, 2) == Decoded(5 * 0x4000, 3);
    assert Decode([0x9E, 0xA7, 0x05], 1, 1) == Decoded(0x27 * 0x80 + 5 * 0x4000, 3);
  }

  /**
   * Five continuation bytes and then the end of the input are the end of
   * the input; a sixth byte, whatever it is, is shifted by 35 bits.
   */
  lemma LongInputs(b: uint8)
    ensures Decode([0x80, 0x80, 0x80, 0x80, 0x80], 0, 0) == EndOfInput
    ensures Decode([0x80, 0x80, 0x80, 0x80, 0x80, b], 0, 0) == ShiftOverflow
  {
    DecodeStops([0x80, 0x80, 0x80, 0x80, 0x80], 0, 0);
    DecodeStops([0x80, 0x80, 0x80, 0x80, 0x80, b], 0, 0);
  }

  /** A single byte below 0x80 is the value itself, whatever follows it. */
  lemma SingleByte(b: uint8, rest: seq<uint8>)
    requires b < 0x80
    ensures Decode([b] + rest, 0, 0) == Decoded(b as nat, 1)
  {
    assert ([b] + rest)[0] == b;
  }

  /** The standard encoding: seven bits per byte, low bits first, high bit set on all bytes but the last. */
  function Encode(v: nat): (bytes: seq<uint8>)
    ensures |bytes| >= 1
  {
    if v < 0x80 then [v as uint8]
    else [(v % 0x80 + 0x80) as uint8] + Encode(v / 0x80)
  }

  /** The arithmetic of one byte of `Encode(v)` when more follow it. */
  lemma EncodeStepBounds(v: nat, k: nat)
    requires k < 5 && v >= 0x80 && v * Scale(k) < U32_LIMIT
    ensures k + 1 < 5 && v % 0x80 < Room(k)
    ensures (v / 0x80) * Scale(k + 1) < U32_LIMIT
    ensures (v % 0x80) * Scale(k) + (v / 0x80) * Scale(k + 1) == v * Scale(k)
  {
    var w := v / 0x80;
    assert v == 0x80 * w + v % 0x80;
    if k == 0 {
    } else if k == 1 {
    } else if k == 2 {
    } else if k == 3 {
    } else {
    }
  }

  /** The arithmetic of the last byte of `Encode(v)`. */
  lemma EncodeLastBounds(v: nat, k: nat)
    requires k < 5 && v < 0x80 && v * Scale(k) < U32_LIMIT
    ensures v < Room(k)
  {
    if k == 4 {
    }
  }

  lemma {:induction false} DecodeEncodeAt(pre: seq<uint8>, v: nat, rest: seq<uint8>, k: nat)
    requires k < 5 && v * Scale(k) < U32_LIMIT
    ensures Decode(pre + Encode(v) + rest, |pre|, k) == Decoded(v * Scale(k), |pre| + |Encode(v)|)
    decreases v
  {
    var input := pre + Encode(v) + rest;
    var b := Encode(v)[0];
    assert input[|pre|] == b;
    if v < 0x80 {
      EncodeLastBounds(v, k);
      ChunkOf(b, k, v);
    } else {
      var w := v / 0x80;
      EncodeStepBounds(v, k);
      ChunkOf(b, k, v % 0x80);
      var pre' := pre + [b];
      assert input == pre' + Encode(w) + rest;
      DecodeEncodeAt(pre', w, rest, k + 1);
    }
  }

  /** Decoding the standard encoding of any 32-bit value gives the value back and consumes exactly the encoding. */
  lemma RoundTrip(v: nat, rest: seq<uint8>)
    requires v < U32_LIMIT
    ensures |Encode(v)| <= 5
    ensures Decode(Encode(v) + rest, 0, 0) == Decoded(v, |Encode(v)|)
  {
    DecodeEncodeAt([], v, rest, 0);
    assert [] + Encode(v) + rest == Encode(v) + rest;
  }

  /**
   * Decoding stops at the first byte with a clear high bit: replacing what
   * follows that byte does not change the result.
   */
  lemma {:induction false} StopsAtLastByte(input: seq<uint8>, pos: nat, k: nat, rest: seq<uint8>)
    requires pos <= |input| && Decode(input, pos, k).Decoded?
    ensures Decode(input[..Decode(input, pos, k).next] + rest, pos, k) == Decode(input, pos, k)
    decreases |input| - pos
  {
    var n := Decode(input, pos, k).next;
    var input' := input[..n] + rest;
    assert input'[pos] == input[pos];
    if input[pos] >= 0x80 {
      StopsAtLastByte(input, pos + 1, k + 1, rest);
    }
  }

  /** Only the bytes from `pos` on are read. */
  lemma {:induction false} ReadsOnlySuffix(input: seq<uint8>, input': seq<uint8>, pos: nat, k: nat)
    requires pos <= |input| && |input'| == |input| && input[pos..] == input'[pos..]
    ensures Decode(input, pos, k) == Decode(input', pos, k)
    decreases |input| - pos
  {
    if pos < |input| {
      assert input[pos] == input[pos..][0] == input'[pos];
      assert input[pos + 1..] == input[pos..][1..];
      assert input'[pos + 1..] == input'[pos..][1..];
      ReadsOnlySuffix(input, input', pos + 1, k + 1);
    }
  }
}
