/**
 Fixed-width unsigned integers in network (big-endian) byte order, as the
 reader's `read8`/`read16`/`read32`/`read64` obtain them with `struct.unpack`
 and the formats "B", "!H", "!I" and "!Q".
 */
module ByteOrder {

  /** One octet of the input stream. */
  type byte = x: int | 0 <= x < 256

  /** 256 to the power `n`: one more than the largest `n`-byte unsigned value. */
  function Pow256(n: nat): (r: nat)
    ensures r >= 1
    ensures n > 0 ==> r >= 256
  {
    if n == 0 then 1 else 256 * Pow256(n - 1)
  }

  /** The unsigned integer a byte string denotes, most significant byte first. */
  function BigEndian(bs: seq<byte>): (r: nat)
    ensures r < Pow256(|bs|)
  {
    if |bs| == 0 then 0
    else
      var hi := BigEndian(bs[..|bs| - 1]);
      assert hi <= Pow256(|bs| - 1) - 1;
      assert hi * 256 <= Pow256(|bs|) - 256;
      hi * 256 + bs[|bs| - 1]
  }

  /** The `width`-byte big-endian encoding of `m` (the encoder's side of `BigEndian`). */
  function ToBigEndian(m: nat, width: nat): (bs: seq<byte>)
    ensures |bs| == width
  {
    if width == 0 then [] else ToBigEndian(m / 256, width - 1) + [m % 256]
  }

  /** Encoding a value that fits in `width` bytes and reading it back gives the value. */
  lemma {:induction false} BigEndianOfEncoding(m: nat, width: nat)
    requires m < Pow256(width)
    ensures BigEndian(ToBigEndian(m, width)) == m
  {
    if width > 0 {
      var bs := ToBigEndian(m, width);
      assert bs[..width - 1] == ToBigEndian(m / 256, width - 1);
      assert bs[width - 1] == m % 256;
      assert m / 256 < Pow256(width - 1);
      BigEndianOfEncoding(m / 256, width - 1);
    }
  }

  /** Every byte string is the encoding of the value it denotes, at its own width. */
  lemma {:induction false} EncodingOfBigEndian(bs: seq<byte>)
    ensures ToBigEndian(BigEndian(bs), |bs|) == bs
  {
    if |bs| > 0 {
      var init := bs[..|bs| - 1];
      var m := BigEndian(bs);
      EncodingOfBigEndian(init);
      assert m == BigEndian(init) * 256 + bs[|bs| - 1];
      assert m / 256 == BigEndian(init);
      assert m % 256 == bs[|bs| - 1];
      assert bs == init + [bs[|bs| - 1]];
    }
  }
}
