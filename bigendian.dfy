/**
 * Bytes, 32-bit unsigned integers and the big-endian encoding of
 * Go's encoding/binary package (`binary.BigEndian.PutUint32` and
 * `binary.BigEndian.Uint32`), used for the keys of the peer-id bucket.
 */
module BigEndian {

  type byte = x: int | 0 <= x < 0x100
  type uint32 = x: int | 0 <= x < 0x1_0000_0000

  /** A Go `[]byte`; also a Go `string`, which is an immutable byte sequence. */
  type bytes = seq<byte>

  /** `binary.BigEndian.PutUint32` into a `[4]byte`: most significant byte first. */
  function PutUint32(v: uint32): (k: bytes)
    ensures |k| == 4
    ensures Uint32(k) == v
  {
    var b0, r0 := v / 0x100_0000, v % 0x100_0000;
    var b1, r1 := r0 / 0x1_0000, r0 % 0x1_0000;
    var b2, b3 := r1 / 0x100, r1 % 0x100;
    [b0, b1, b2, b3]
  }

  /**
   * `binary.BigEndian.Uint32`: the value of the first four bytes, most
   * significant first. Go panics on a shorter slice and ignores the bytes
   * after the fourth.
   */
  function Uint32(k: bytes): (v: uint32)
    requires |k| >= 4
  {
    (k[0] as int) * 0x100_0000 + (k[1] as int) * 0x1_0000 + (k[2] as int) * 0x100 + (k[3] as int)
  }

  /** Every 4-byte key is the encoding of its own value. */
  lemma PutUint32OfUint32(k: bytes)
    requires |k| == 4
    ensures PutUint32(Uint32(k)) == k
  {
    var v := Uint32(k);
    assert v / 0x100_0000 == k[0];
    assert (v / 0x1_0000) % 0x100 == k[1];
    assert (v / 0x100) % 0x100 == k[2];
    assert v % 0x100 == k[3];
  }

  /** The encoding is injective: distinct ids get distinct keys. */
  lemma PutUint32Injective(x: uint32, y: uint32)
    requires PutUint32(x) == PutUint32(y)
    ensures x == y
  {
    assert Uint32(PutUint32(x)) == x;
  }
}
