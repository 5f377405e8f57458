/**
 * Byte and word conversions used by the address encoder: the `as u8` cast,
 * the native-endian word/byte conversion (fixed to little-endian here), byte
 * shifts of a 32-bit word, and the big-endian encodings of 64-bit and 32-bit
 * values.
 */
module Bytes {

  /**
   * The `v as u8` cast: keeps the low eight bits of `v`, so a value below
   * 256 passes through unchanged.
   */
  function Low8(v: bv32): (r: bv8)
    ensures r as bv32 == v & 0xFF
    ensures v < 256 ==> r as bv32 == v
  {
    (v % 256) as bv8
  }

  function Zeros(n: nat): (z: seq<bv8>)
    ensures |z| == n
    ensures forall i :: 0 <= i < n ==> z[i] == 0
  {
    seq(n, _ => 0)
  }

  /** The word whose bits `8j` to `8j + 7` are `b_j`: four bytes, least significant first. */
  function Pack(b0: bv8, b1: bv8, b2: bv8, b3: bv8): bv32 {
    (b0 as bv32) | ((b1 as bv32) << 8) | ((b2 as bv32) << 16) | ((b3 as bv32) << 24)
  }

  /**
   * `u32::to_ne_bytes` on a little-endian host: least significant byte
   * first, so the four bytes reassemble to `w`.
   */
  function WordToBytes(w: bv32): (b: seq<bv8>)
    ensures |b| == 4
    ensures Pack(b[0], b[1], b[2], b[3]) == w
  {
    UnpackWord(w);
    [Low8(w), Low8(w >> 8), Low8(w >> 16), Low8(w >> 24)]
  }

  /**
   * `u32::from_ne_bytes` on a little-endian host: the word whose native
   * bytes are `b`, so `to_ne_bytes(from_ne_bytes(b)) == b`.
   */
  function BytesToWord(b: seq<bv8>): (w: bv32)
    requires |b| == 4
    ensures WordToBytes(w) == b
  {
    PackWord(b[0], b[1], b[2], b[3]);
    assert b == [b[0], b[1], b[2], b[3]];
    Pack(b[0], b[1], b[2], b[3])
  }

  /** `from_ne_bytes(to_ne_bytes(w)) == w`. */
  lemma WordRoundTrip(w: bv32)
    ensures BytesToWord(WordToBytes(w)) == w
  {
    var b := WordToBytes(w);
    assert b == [b[0], b[1], b[2], b[3]];
  }

  /*
   * The bit-vector facts behind the conversions, stated on single bytes
   * rather than on sequences, which keeps each a small verification condition.
   */

  lemma PackWord(b0: bv8, b1: bv8, b2: bv8, b3: bv8)
    ensures WordToBytes(Pack(b0, b1, b2, b3)) == [b0, b1, b2, b3]
  {
  }

  lemma UnpackWord(w: bv32)
    ensures Pack(Low8(w), Low8(w >> 8), Low8(w >> 16), Low8(w >> 24)) == w
  {
  }

  /** `v << (8 * k)` for a byte position `k` inside a word; the bits shifted past bit 31 are lost. */
  function ShiftLeftBytes(v: bv32, k: nat): bv32
    requires k < 4
  {
    if k == 0 then v else if k == 1 then v << 8 else if k == 2 then v << 16 else v << 24
  }

  /** `w >> (8 * k)` for a byte position `k` inside a word. */
  function ShiftRightBytes(w: bv32, k: nat): bv32
    requires k < 4
  {
    if k == 0 then w else if k == 1 then w >> 8 else if k == 2 then w >> 16 else w >> 24
  }

  /*
   * The byte views of the shifts.  Each byte position is a lemma of its own:
   * one verification condition per position keeps the bit-vector reasoning
   * small, and the general lemmas split the four positions in halves.
   */

  lemma ShiftLeft0(v: bv32) ensures WordToBytes(ShiftLeftBytes(v, 0)) == WordToBytes(v) {}
  lemma ShiftLeft1(v: bv32) ensures WordToBytes(ShiftLeftBytes(v, 1)) == Zeros(1) + WordToBytes(v)[..3] {
    ShiftLeft1Bytes(v);
    assert Zeros(1) + WordToBytes(v)[..3] == [0, Low8(v), Low8(v >> 8), Low8(v >> 16)];
  }

  lemma ShiftLeft1Bytes(v: bv32)
    ensures Low8(v << 8) == 0 && Low8((v << 8) >> 8) == Low8(v)
    ensures Low8((v << 8) >> 16) == Low8(v >> 8) && Low8((v << 8) >> 24) == Low8(v >> 16)
  {
  }
  lemma ShiftLeft2(v: bv32) ensures WordToBytes(ShiftLeftBytes(v, 2)) == Zeros(2) + WordToBytes(v)[..2] {}
  lemma ShiftLeft3(v: bv32) ensures WordToBytes(ShiftLeftBytes(v, 3)) == Zeros(3) + WordToBytes(v)[..1] {}

  /**
   * Shifting left by `k` bytes moves every byte `k` places up in the
   * little-endian view: `k` zero bytes come in at the bottom and the top `k`
   * bytes of `v` fall off.
   */
  lemma ShiftLeftBytesView(v: bv32, k: nat)
    requires k < 4
    ensures WordToBytes(ShiftLeftBytes(v, k)) == Zeros(k) + WordToBytes(v)[..4 - k]
  {
    if k < 2 {
      if k == 0 { ShiftLeft0(v); } else { ShiftLeft1(v); }
    } else {
      if k == 2 { ShiftLeft2(v); } else { ShiftLeft3(v); }
    }
  }

  lemma ShiftRight0(w: bv32) ensures WordToBytes(ShiftRightBytes(w, 0)) == WordToBytes(w) {}
  lemma ShiftRight1(w: bv32) ensures WordToBytes(ShiftRightBytes(w, 1)) == WordToBytes(w)[1..] + Zeros(1) {}
  lemma ShiftRight2(w: bv32) ensures WordToBytes(ShiftRightBytes(w, 2)) == WordToBytes(w)[2..] + Zeros(2) {}
  lemma ShiftRight3(w: bv32) ensures WordToBytes(ShiftRightBytes(w, 3)) == WordToBytes(w)[3..] + Zeros(3) {}

  /**
   * Shifting right by `k` bytes moves every byte `k` places down in the
   * little-endian view: the bottom `k` bytes fall off and zeros come in at
   * the top.
   */
  lemma ShiftRightBytesView(w: bv32, k: nat)
    requires k < 4
    ensures WordToBytes(ShiftRightBytes(w, k)) == WordToBytes(w)[k..] + Zeros(k)
  {
    if k < 2 {
      if k == 0 { ShiftRight0(w); } else { ShiftRight1(w); }
    } else {
      if k == 2 { ShiftRight2(w); } else { ShiftRight3(w); }
    }
  }

  lemma ShiftLeftRight0(v: bv32) ensures ShiftRightBytes(ShiftLeftBytes(v, 0), 0) == v & ShiftRightBytes(0xFFFF_FFFF, 0) {}
  lemma ShiftLeftRight1(v: bv32) ensures ShiftRightBytes(ShiftLeftBytes(v, 1), 1) == v & ShiftRightBytes(0xFFFF_FFFF, 1) {}
  lemma ShiftLeftRight2(v: bv32) ensures ShiftRightBytes(ShiftLeftBytes(v, 2), 2) == v & ShiftRightBytes(0xFFFF_FFFF, 2) {}
  lemma ShiftLeftRight3(v: bv32) ensures ShiftRightBytes(ShiftLeftBytes(v, 3), 3) == v & ShiftRightBytes(0xFFFF_FFFF, 3) {}

  /**
   * Shifting left and back right by `k` bytes keeps `v mod 2^(32 - 8k)`:
   * the top `k` bytes are lost.
   */
  lemma ShiftLeftRight(v: bv32, k: nat)
    requires k < 4
    ensures ShiftRightBytes(ShiftLeftBytes(v, k), k) == v & ShiftRightBytes(0xFFFF_FFFF, k)
  {
    if k < 2 { ShiftLeftRightLow(v, k); } else { ShiftLeftRightHigh(v, k); }
  }

  lemma ShiftLeftRightLow(v: bv32, k: nat)
    requires k < 2
    ensures ShiftRightBytes(ShiftLeftBytes(v, k), k) == v & ShiftRightBytes(0xFFFF_FFFF, k)
  {
    if k == 0 { ShiftLeftRight0(v); } else { ShiftLeftRight1(v); }
  }

  lemma ShiftLeftRightHigh(v: bv32, k: nat)
    requires 2 <= k < 4
    ensures ShiftRightBytes(ShiftLeftBytes(v, k), k) == v & ShiftRightBytes(0xFFFF_FFFF, k)
  {
    if k == 2 { ShiftLeftRight2(v); } else { ShiftLeftRight3(v); }
  }

  lemma ShiftRightLeftRight0(w: bv32) ensures ShiftRightBytes(ShiftLeftBytes(ShiftRightBytes(w, 0), 0), 0) == ShiftRightBytes(w, 0) {}
  lemma ShiftRightLeftRight1(w: bv32) ensures ShiftRightBytes(ShiftLeftBytes(ShiftRightBytes(w, 1), 1), 1) == ShiftRightBytes(w, 1) {}
  lemma ShiftRightLeftRight2(w: bv32) ensures ShiftRightBytes(ShiftLeftBytes(ShiftRightBytes(w, 2), 2), 2) == ShiftRightBytes(w, 2) {}
  lemma ShiftRightLeftRight3(w: bv32) ensures ShiftRightBytes(ShiftLeftBytes(ShiftRightBytes(w, 3), 3), 3) == ShiftRightBytes(w, 3) {}

  /** A value read by a right shift survives being shifted back left and read again. */
  lemma ShiftRightLeftRight(w: bv32, k: nat)
    requires k < 4
    ensures ShiftRightBytes(ShiftLeftBytes(ShiftRightBytes(w, k), k), k) == ShiftRightBytes(w, k)
  {
    if k < 2 {
      if k == 0 { ShiftRightLeftRight0(w); } else { ShiftRightLeftRight1(w); }
    } else {
      if k == 2 { ShiftRightLeftRight2(w); } else { ShiftRightLeftRight3(w); }
    }
  }

  /** A value below 256 has a single non-zero byte, its lowest. */
  lemma SmallWordBytes(v: bv32)
    requires v < 256
    ensures WordToBytes(v) == [Low8(v), 0, 0, 0]
  {
  }

  /** The `v as u8` cast from a 64-bit value: keeps `v mod 256`. */
  function Low8Of64(v: bv64): bv8 {
    (v % 256) as bv8
  }

  /** The 64-bit value whose bits `8(7 - j)` to `8(7 - j) + 7` are `b_j`: most significant byte first. */
  function Pack64(b0: bv8, b1: bv8, b2: bv8, b3: bv8, b4: bv8, b5: bv8, b6: bv8, b7: bv8): bv64 {
    ((b0 as bv64) << 56) | ((b1 as bv64) << 48) | ((b2 as bv64) << 40) | ((b3 as bv64) << 32)
    | ((b4 as bv64) << 24) | ((b5 as bv64) << 16) | ((b6 as bv64) << 8) | (b7 as bv64)
  }

  /**
   * `u64::to_be_bytes`: the 8-byte big-endian encoding, most significant byte
   * first, so the bytes reassemble to `x` in that order.
   */
  function BigEndian64(x: bv64): (b: seq<bv8>)
    ensures |b| == 8
    ensures Pack64(b[0], b[1], b[2], b[3], b[4], b[5], b[6], b[7]) == x
  {
    Unpack64(x);
    [Low8Of64(x >> 56), Low8Of64(x >> 48), Low8Of64(x >> 40), Low8Of64(x >> 32),
     Low8Of64(x >> 24), Low8Of64(x >> 16), Low8Of64(x >> 8), Low8Of64(x)]
  }

  /** `u64::from_be_bytes`: the value whose big-endian encoding is `b`. */
  function FromBigEndian64(b: seq<bv8>): (x: bv64)
    requires |b| == 8
    ensures BigEndian64(x) == b
  {
    Pack64Bytes(b[0], b[1], b[2], b[3], b[4], b[5], b[6], b[7]);
    assert b == [b[0], b[1], b[2], b[3], b[4], b[5], b[6], b[7]];
    Pack64(b[0], b[1], b[2], b[3], b[4], b[5], b[6], b[7])
  }

  /** `u64::from_be_bytes(u64::to_be_bytes(x)) == x`. */
  lemma BigEndian64RoundTrip(x: bv64)
    ensures FromBigEndian64(BigEndian64(x)) == x
  {
    var b := BigEndian64(x);
    assert b == [b[0], b[1], b[2], b[3], b[4], b[5], b[6], b[7]];
  }

  lemma Pack64Bytes(b0: bv8, b1: bv8, b2: bv8, b3: bv8, b4: bv8, b5: bv8, b6: bv8, b7: bv8)
    ensures BigEndian64(Pack64(b0, b1, b2, b3, b4, b5, b6, b7)) == [b0, b1, b2, b3, b4, b5, b6, b7]
  {
  }

  lemma Unpack64(x: bv64)
    ensures Pack64(Low8Of64(x >> 56), Low8Of64(x >> 48), Low8Of64(x >> 40), Low8Of64(x >> 32),
                   Low8Of64(x >> 24), Low8Of64(x >> 16), Low8Of64(x >> 8), Low8Of64(x)) == x
  {
  }

  /**
   * `u32_to_bytes`: the 4-byte big-endian encoding, most significant byte
   * first (toByte(x, 4) of section 4.4 of FIPS 205).  It is the native
   * (little-endian) byte view reversed.
   */
  function BigEndian32(x: bv32): (b: seq<bv8>)
    ensures |b| == 4
    ensures b == [WordToBytes(x)[3], WordToBytes(x)[2], WordToBytes(x)[1], WordToBytes(x)[0]]
  {
    [Low8(x >> 24), Low8(x >> 16), Low8(x >> 8), Low8(x)]
  }

  /**
   * The value of 4 big-endian bytes (toInt(X, 4) of section 4.4 of FIPS 205):
   * the word whose big-endian encoding is `b`.
   */
  function FromBigEndian32(b: seq<bv8>): (x: bv32)
    requires |b| == 4
    ensures BigEndian32(x) == b
  {
    PackWord(b[3], b[2], b[1], b[0]);
    assert b == [b[0], b[1], b[2], b[3]];
    Pack(b[3], b[2], b[1], b[0])
  }

  /** toInt(toByte(x, 4), 4) == x. */
  lemma BigEndian32RoundTrip(x: bv32)
    ensures FromBigEndian32(BigEndian32(x)) == x
  {
    var b := WordToBytes(x);
    assert BigEndian32(x) == [b[3], b[2], b[1], b[0]];
  }
}
