/** The inbound application message: an ordered sequence of tuples, each a
    key, a payload type and the payload bytes, and the integer readings the
    watch face takes from an integer payload. */
module Message {

  newtype uint8 = x: int | 0 <= x < 256

  /** The message keys the watch face knows. Their numeric ids
      (MESSAGE_KEY_*) are assigned by the build; any other id is Unknown. */
  datatype Key = SurfacePressure | Temperature | ApparentTemperature | SunriseSunset | Unknown(id: nat)

  /** The payload types of a tuple. */
  datatype TupleType = TupleByteArray | TupleCString | TupleUInt | TupleInt

  /** One field of a message; its length is the number of payload bytes. */
  datatype Tuple = Tuple(key: Key, kind: TupleType, value: seq<uint8>) {
    function Length(): nat {
      |value|
    }
  }

  const Int32Min: int := -0x8000_0000
  const Int32Max: int := 0x7FFF_FFFF

  function Pow256(n: nat): (p: nat)
    ensures p >= 1
  {
    if n == 0 then 1 else 256 * Pow256(n - 1)
  }

  /** The unsigned value of bytes stored least significant first. */
  function LittleEndian(bs: seq<uint8>): nat
  {
    if bs == [] then 0 else bs[0] as nat + 256 * LittleEndian(bs[1..])
  }

  /** n bytes holding u least significant first (the inverse of LittleEndian). */
  function EncodeLittleEndian(u: nat, n: nat): (r: seq<uint8>)
    ensures |r| == n
  {
    if n == 0 then [] else [(u % 256) as uint8] + EncodeLittleEndian(u / 256, n - 1)
  }

  lemma {:induction false} LittleEndianBound(bs: seq<uint8>)
    ensures LittleEndian(bs) < Pow256(|bs|)
  {
    if bs != [] {
      LittleEndianBound(bs[1..]);
    }
  }

  lemma {:induction false} LittleEndianOfEncode(u: nat, n: nat)
    requires u < Pow256(n)
    ensures LittleEndian(EncodeLittleEndian(u, n)) == u
  {
    if n > 0 {
      var r := EncodeLittleEndian(u, n);
      assert r[1..] == EncodeLittleEndian(u / 256, n - 1);
      LittleEndianOfEncode(u / 256, n - 1);
    }
  }

  /** The low bytes of a little-endian number carry its value modulo the
      matching power of 256. */
  lemma {:induction false} LittleEndianSplit(bs: seq<uint8>, k: nat)
    requires k <= |bs|
    ensures LittleEndian(bs) == LittleEndian(bs[..k]) + Pow256(k) * LittleEndian(bs[k..])
  {
    if k > 0 {
      assert bs[1..][..k - 1] == bs[..k][1..];
      assert bs[1..][k - 1..] == bs[k..];
      LittleEndianSplit(bs[1..], k - 1);
      calc {
        LittleEndian(bs);
        bs[0] as nat + 256 * LittleEndian(bs[1..]);
        bs[0] as nat + 256 * (LittleEndian(bs[..k][1..]) + Pow256(k - 1) * LittleEndian(bs[k..]));
        bs[0] as nat + 256 * LittleEndian(bs[..k][1..]) + 256 * Pow256(k - 1) * LittleEndian(bs[k..]);
        LittleEndian(bs[..k]) + Pow256(k) * LittleEndian(bs[k..]);
      }
    } else {
      assert bs[..0] == [] && bs[0..] == bs;
    }
  }

  /** The two's-complement reading of an unsigned value whose sign bit is
      worth `half`. */
  function Signed(u: nat, half: nat): int
  {
    if u >= half then u - 2 * half else u
  }

  /** `tuple->value->int32`: the first four payload bytes as a signed
      little-endian 32-bit integer (the watch's processor is little-endian). */
  function ReadInt32(bs: seq<uint8>): (r: int)
    requires |bs| >= 4
    ensures Int32Min <= r <= Int32Max
  {
    LittleEndianBound(bs[..4]);
    Signed(LittleEndian(bs[..4]), 0x8000_0000)
  }

  /** The four payload bytes the phone sends for a 32-bit integer. */
  function EncodeInt32(v: int): (r: seq<uint8>)
    requires Int32Min <= v <= Int32Max
    ensures |r| == 4
  {
    EncodeLittleEndian(if v < 0 then v + 0x1_0000_0000 else v, 4)
  }

  /** Reading back an encoded integer gives the integer. */
  lemma ReadEncodeInt32(v: int)
    requires Int32Min <= v <= Int32Max
    ensures ReadInt32(EncodeInt32(v)) == v
  {
    var bs := EncodeInt32(v);
    assert bs[..4] == bs;
    LittleEndianOfEncode(if v < 0 then v + 0x1_0000_0000 else v, 4);
  }

  /** C's conversion of an int to `int16_t`: the value modulo 2^16, read as
      two's complement. (Implementation-defined in C for out-of-range
      values; this is what the watch's GCC toolchain does.) */
  function ToInt16(x: int): (r: int)
    ensures -0x8000 <= r <= 0x7FFF
    ensures (x - r) % 0x1_0000 == 0
  {
    var r := (x + 0x8000) % 0x1_0000 - 0x8000;
    assert x - r == 0x1_0000 * ((x + 0x8000) / 0x1_0000);
    r
  }

  /** A value that fits in 16 bits is not changed by the narrowing. */
  lemma ToInt16Identity(x: int)
    requires -0x8000 <= x <= 0x7FFF
    ensures ToInt16(x) == x
  {
  }

  /** The int16 the watch face formats from an int32 payload depends only on
      the two low-order payload bytes. */
  lemma ToInt16OfReadInt32(bs: seq<uint8>)
    requires |bs| >= 4
    ensures ToInt16(ReadInt32(bs)) == Signed(LittleEndian(bs[..2]), 0x8000)
  {
    var w := bs[..4];
    LittleEndianSplit(w, 2);
    assert w[..2] == bs[..2];
    var lo: int := LittleEndian(bs[..2]);
    var hi: int := LittleEndian(w[2..]);
    LittleEndianBound(bs[..2]);
    var x := ReadInt32(bs);
    var k := if LittleEndian(w) >= 0x8000_0000 then 1 else 0;
    assert x == lo + 0x1_0000 * (hi - 0x1_0000 * k);
    var s := Signed(lo, 0x8000);
    var r := ToInt16(x);
    // r and s are both 16-bit values congruent to x modulo 2^16
    var q := hi - 0x1_0000 * k + (if lo >= 0x8000 then 1 else 0);
    assert x - s == 0x1_0000 * q;
    Congruent16(x, r, s, q);
  }

  /** Two 16-bit values congruent to the same x modulo 2^16 are equal. */
  lemma Congruent16(x: int, r: int, s: int, q: int)
    requires -0x8000 <= r <= 0x7FFF && -0x8000 <= s <= 0x7FFF
    requires (x - r) % 0x1_0000 == 0
    requires x - s == 0x1_0000 * q
    ensures r == s
  {
    var p := (x - r) / 0x1_0000;
    assert x - r == 0x1_0000 * p;
    assert r - s == 0x1_0000 * (q - p);
  }
}
