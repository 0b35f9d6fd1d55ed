/** Bytes on a stream connection and the 4-byte big-endian length prefix of
    `int.to_bytes(4, byteorder='big')` / `int.from_bytes(..., 'big')`. */
module Bytes {
  newtype byte = x: int | 0 <= x < 256

  /** The first integer that no longer fits in four bytes. */
  const TWO_32: int := 0x1_0000_0000

  /** `n.to_bytes(4, byteorder='big')`, most significant byte first. */
  function BE4(n: int): (bs: seq<byte>)
    requires 0 <= n < TWO_32
    ensures |bs| == 4
  {
    var q1 := n / 256;
    var q2 := q1 / 256;
    var q3 := q2 / 256;
    [q3 as byte, (q2 % 256) as byte, (q1 % 256) as byte, (n % 256) as byte]
  }

  /** `int.from_bytes(bs, byteorder='big')` for any number of bytes; the
      empty read is 0. */
  function FromBE(bs: seq<byte>): (n: nat)
  {
    if bs == [] then 0 else FromBE(bs[..|bs| - 1]) * 256 + bs[|bs| - 1] as int
  }

  /** Reading back a 4-byte prefix gives the length that was written. */
  lemma FromBEBE4(n: int)
    requires 0 <= n < TWO_32
    ensures FromBE(BE4(n)) == n
  {
    var bs := BE4(n);
    var q1 := n / 256;
    var q2 := q1 / 256;
    var q3 := q2 / 256;
    assert bs[..1] == [q3 as byte];
    assert bs[..2] == bs[..1] + [(q2 % 256) as byte];
    assert bs[..3] == bs[..2] + [(q1 % 256) as byte];
    assert bs[..2][..1] == bs[..1] && bs[..3][..2] == bs[..2] && bs[..3] == bs[..4][..3];
    assert FromBE(bs[..1]) == q3 by {
      assert bs[..1][..0] == [];
    }
    assert FromBE(bs[..2]) == q2;
    assert FromBE(bs[..3]) == q1;
    assert bs == bs[..4];
  }
}
