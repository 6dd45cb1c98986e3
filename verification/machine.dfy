/**
 * Fixed-width machine integers as the Go code uses them: `byte`, `uint32`
 * with wrap-around arithmetic, and the big-endian conversions of
 * `encoding/binary`.
 */
module Machine {

  const TWO_32: int := 0x1_0000_0000

  type byte = x: int | 0 <= x < 256
  type u32 = x: int | 0 <= x < 0x1_0000_0000

  /** `a + b` on uint32: wraps around modulo 2^32. */
  function Add32(a: u32, b: u32): (r: u32)
    ensures a + b < TWO_32 ==> r == a + b
    ensures a + b >= TWO_32 ==> r == a + b - TWO_32
  {
    (a + b) % TWO_32
  }

  /** `a - b` on uint32: a negative difference wraps to a large value. */
  function Sub32(a: u32, b: u32): (r: u32)
    ensures a >= b ==> r == a - b
    ensures a < b ==> r == a - b + TWO_32
  {
    (a - b) % TWO_32
  }

  /** `uint32(x)` of a non-negative Go int: keeps the low 32 bits. */
  function ToU32(x: nat): (r: u32)
    ensures x < TWO_32 ==> r == x
  {
    x % TWO_32
  }

  function Pow256(n: nat): (r: nat)
    ensures r > 0
  {
    if n == 0 then 1 else 256 * Pow256(n - 1)
  }

  /** The unsigned value of a byte string read most significant byte first
    * (`binary.BigEndian.Uint32` / `Uint64` for 4 / 8 bytes). */
  function BigEndian(bs: seq<byte>): (r: nat)
    ensures r < Pow256(|bs|)
  {
    if |bs| == 0 then 0 else BigEndian(bs[..|bs| - 1]) * 256 + bs[|bs| - 1]
  }

  /** The n low-order bytes of x, most significant first
    * (`binary.BigEndian.PutUint32` for n = 4). */
  function PutBigEndian(x: nat, n: nat): (r: seq<byte>)
    ensures |r| == n
  {
    if n == 0 then [] else PutBigEndian(x / 256, n - 1) + [x % 256]
  }

  /** Writing a value that fits and reading it back gives the value. */
  lemma {:induction false} ReadAfterWrite(x: nat, n: nat)
    requires x < Pow256(n)
    ensures BigEndian(PutBigEndian(x, n)) == x
  {
    if n > 0 {
      var bs := PutBigEndian(x, n);
      var q := x / 256;
      assert bs[..n - 1] == PutBigEndian(q, n - 1);
      assert q * 256 <= x;
      ReadAfterWrite(q, n - 1);
    }
  }

  /** Reading a byte string and writing it back at the same width gives the bytes. */
  lemma {:induction false} WriteAfterRead(bs: seq<byte>)
    ensures PutBigEndian(BigEndian(bs), |bs|) == bs
  {
    if |bs| > 0 {
      var init := bs[..|bs| - 1];
      WriteAfterRead(init);
      var v := BigEndian(init) * 256 + bs[|bs| - 1];
      assert v / 256 == BigEndian(init);
      assert v % 256 == bs[|bs| - 1];
    }
  }

  /** Appending a byte shifts the value up by eight bits. */
  lemma BigEndianSnoc(bs: seq<byte>, b: byte)
    ensures BigEndian(bs + [b]) == BigEndian(bs) * 256 + b
  {
    assert (bs + [b])[..|bs|] == bs;
  }

  /** The value of four bytes. */
  lemma BigEndian4(b0: byte, b1: byte, b2: byte, b3: byte)
    ensures BigEndian([b0, b1, b2, b3]) == ((b0 * 256 + b1) * 256 + b2) * 256 + b3
  {
    BigEndianSnoc([], b0);
    assert [] + [b0] == [b0];
    BigEndianSnoc([b0], b1);
    assert [b0] + [b1] == [b0, b1];
    BigEndianSnoc([b0, b1], b2);
    assert [b0, b1] + [b2] == [b0, b1, b2];
    BigEndianSnoc([b0, b1, b2], b3);
    assert [b0, b1, b2] + [b3] == [b0, b1, b2, b3];
  }

  /** The value of eight bytes: the first four shifted past the last four. */
  lemma BigEndian8(b0: byte, b1: byte, b2: byte, b3: byte, b4: byte, b5: byte, b6: byte, b7: byte)
    ensures BigEndian([b0, b1, b2, b3, b4, b5, b6, b7])
         == ((((BigEndian([b0, b1, b2, b3]) * 256 + b4) * 256 + b5) * 256 + b6) * 256 + b7)
  {
    BigEndianSnoc([b0, b1, b2, b3], b4);
    assert [b0, b1, b2, b3] + [b4] == [b0, b1, b2, b3, b4];
    BigEndianSnoc([b0, b1, b2, b3, b4], b5);
    assert [b0, b1, b2, b3, b4] + [b5] == [b0, b1, b2, b3, b4, b5];
    BigEndianSnoc([b0, b1, b2, b3, b4, b5], b6);
    assert [b0, b1, b2, b3, b4, b5] + [b6] == [b0, b1, b2, b3, b4, b5, b6];
    BigEndianSnoc([b0, b1, b2, b3, b4, b5, b6], b7);
    assert [b0, b1, b2, b3, b4, b5, b6] + [b7] == [b0, b1, b2, b3, b4, b5, b6, b7];
  }

  /** Bytes that are all zero have value zero. */
  lemma {:induction false} BigEndianZeros(bs: seq<byte>)
    requires forall i :: 0 <= i < |bs| ==> bs[i] == 0
    ensures BigEndian(bs) == 0
  {
    if |bs| > 0 {
      BigEndianZeros(bs[..|bs| - 1]);
    }
  }
}
