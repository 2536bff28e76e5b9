/** Byte-level reading of the archive stream.

    The archive is an immutable sequence of bytes consumed front to back; every reader
    takes the remaining stream and returns either `Short` (not enough bytes left) or the
    decoded value together with the unread remainder. Multi-byte integers are unsigned
    and little-endian, the byte order of the x86 machines the installer runs on. A byte is
    an integer in 0..255, so reading one involves no conversion. */
module Wire {

  type byte = x: int | 0 <= x < 0x100
  type bytes = seq<byte>

  type uint8 = x: nat | x < 0x100
  type uint16 = x: nat | x < 0x1_0000
  type uint32 = x: nat | x < 0x1_0000_0000

  const UINT32_LIMIT: nat := 0x1_0000_0000

  datatype Option<+T> = None | Some(value: T)

  /** Outcome of one read from the stream. */
  datatype Read<+T> = Short | Got(value: T, rest: bytes)

  /** Concatenation regrouped; called explicitly so that proofs never search for it. */
  lemma AppendAssoc<T>(a: seq<T>, b: seq<T>, c: seq<T>)
    ensures (a + b) + c == a + (b + c)
  {
  }

  function Pow256(n: nat): (r: nat)
    ensures r >= 1
  {
    if n == 0 then 1 else 256 * Pow256(n - 1)
  }

  /** Unsigned value of `bs`, least significant byte first. */
  function LittleEndian(bs: bytes): (v: nat)
    ensures v < Pow256(|bs|)
  {
    if |bs| == 0 then 0
    else
      var high := LittleEndian(bs[1..]);
      assert high <= Pow256(|bs| - 1) - 1;
      bs[0] + 256 * high
  }

  /** The `width`-byte little-endian encoding of `x`. */
  function ToLittleEndian(x: nat, width: nat): (bs: bytes)
    requires x < Pow256(width)
    ensures |bs| == width
    ensures LittleEndian(bs) == x
  {
    if width == 0 then []
    else
      assert x / 256 < Pow256(width - 1);
      [x % 256] + ToLittleEndian(x / 256, width - 1)
  }

  /** Decoding is injective: a byte string is the encoding of its own value. */
  lemma {:induction false} LittleEndianCanonical(bs: bytes)
    ensures ToLittleEndian(LittleEndian(bs), |bs|) == bs
  {
    if |bs| > 0 {
      var high := LittleEndian(bs[1..]);
      LittleEndianCanonical(bs[1..]);
      DigitSplit(bs[0], high);
      var tail := ToLittleEndian(high, |bs| - 1);
      assert ToLittleEndian(LittleEndian(bs), |bs|) == [bs[0]] + tail;
      assert [bs[0]] + bs[1..] == bs;
    }
  }

  /** The low byte and the rest of a base-256 number are recovered by `%` and `/`. */
  lemma DigitSplit(lo: byte, hi: nat)
    ensures (lo + 256 * hi) % 256 == lo && (lo + 256 * hi) / 256 == hi
  {
  }

  function EncodeU8(x: uint8): bytes { ToLittleEndian(x, 1) }
  function EncodeU16(x: uint16): bytes { ToLittleEndian(x, 2) }
  function EncodeU32(x: uint32): bytes { ToLittleEndian(x, 4) }

  /** Reads a `width`-byte little-endian unsigned integer. */
  function ReadUInt(s: bytes, width: nat): (r: Read<nat>)
    ensures r.Got? <==> |s| >= width
    ensures r.Got? ==> r.value < Pow256(width) && |r.rest| == |s| - width
  {
    if |s| < width then Short else Got(LittleEndian(s[..width]), s[width..])
  }

  /** What was read is the encoding of the value read, and nothing more. */
  lemma ReadUIntCanonical(s: bytes, width: nat)
    requires ReadUInt(s, width).Got?
    ensures s == ToLittleEndian(ReadUInt(s, width).value, width) + ReadUInt(s, width).rest
  {
    LittleEndianCanonical(s[..width]);
    assert s == s[..width] + s[width..];
  }

  lemma ReadUIntEncoded(x: nat, width: nat, t: bytes)
    requires x < Pow256(width)
    ensures ReadUInt(ToLittleEndian(x, width) + t, width) == Got(x, t)
  {
    var s := ToLittleEndian(x, width) + t;
    assert s[..width] == ToLittleEndian(x, width);
    assert s[width..] == t;
  }

  function ReadU8(s: bytes): (r: Read<uint8>)
    ensures r.Got? <==> |s| >= 1
    ensures r.Got? ==> r.value == s[0] && |r.rest| == |s| - 1
  {
    if |s| < 1 then Short else Got(s[0], s[1..])
  }

  function ReadU16(s: bytes): (r: Read<uint16>)
    ensures r.Got? <==> |s| >= 2
    ensures r.Got? ==> |r.rest| == |s| - 2
  {
    match ReadUInt(s, 2)
    case Short => Short
    case Got(v, rest) => Got(v, rest)
  }

  function ReadU32(s: bytes): (r: Read<uint32>)
    ensures r.Got? <==> |s| >= 4
    ensures r.Got? ==> |r.rest| == |s| - 4
  {
    match ReadUInt(s, 4)
    case Short => Short
    case Got(v, rest) => Got(v, rest)
  }

  lemma ReadU8Canonical(s: bytes)
    requires |s| >= 1
    ensures s == EncodeU8(ReadU8(s).value) + ReadU8(s).rest
  {
    assert s == [s[0]] + s[1..];
  }

  lemma ReadU16Canonical(s: bytes)
    requires |s| >= 2
    ensures s == EncodeU16(ReadU16(s).value) + ReadU16(s).rest
  {
    ReadUIntCanonical(s, 2);
  }

  lemma ReadU32Canonical(s: bytes)
    requires |s| >= 4
    ensures s == EncodeU32(ReadU32(s).value) + ReadU32(s).rest
  {
    ReadUIntCanonical(s, 4);
  }

  lemma ReadU8Encoded(x: uint8, t: bytes)
    ensures ReadU8(EncodeU8(x) + t) == Got(x, t)
  {
    assert (EncodeU8(x) + t)[1..] == t;
  }

  lemma ReadU16Encoded(x: uint16, t: bytes)
    ensures ReadU16(EncodeU16(x) + t) == Got(x, t)
  {
    ReadUIntEncoded(x, 2, t);
  }

  lemma ReadU32Encoded(x: uint32, t: bytes)
    ensures ReadU32(EncodeU32(x) + t) == Got(x, t)
  {
    ReadUIntEncoded(x, 4, t);
  }

  /** Reads exactly `n` raw bytes. */
  function ReadBytes(s: bytes, n: nat): (r: Read<bytes>)
    ensures r.Got? <==> |s| >= n
    ensures r.Got? ==> |r.value| == n && |r.rest| == |s| - n
  {
    if |s| < n then Short else Got(s[..n], s[n..])
  }

  lemma ReadBytesCanonical(s: bytes, n: nat)
    requires |s| >= n
    ensures s == ReadBytes(s, n).value + ReadBytes(s, n).rest
  {
    assert s == s[..n] + s[n..];
  }

  lemma ReadBytesExact(content: bytes, t: bytes)
    ensures ReadBytes(content + t, |content|) == Got(content, t)
  {
    var s := content + t;
    assert s[..|content|] == content;
    assert s[|content|..] == t;
  }
}
