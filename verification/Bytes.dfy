/** Bytes as bounded integers, byte strings written as ASCII text, and big-endian numbers. */
module Bytes {
  type Byte = b: int | 0 <= b < 256

  type Bytes = seq<Byte>

  /** The bytes of a byte-string literal. */
  function Ascii(text: string): (b: Bytes)
    ensures |b| == |text|
    ensures forall i :: 0 <= i < |text| ==> b[i] == text[i] as int % 256
  {
    seq(|text|, i requires 0 <= i < |text| => text[i] as int % 256)
  }

  const CR: Byte := 13
  const LF: Byte := 10

  function Pow256(width: nat): nat {
    if width == 0 then 1 else 256 * Pow256(width - 1)
  }

  /** `n` in `width` bytes, most significant first; higher digits are dropped. */
  function BigEndian(n: nat, width: nat): (b: Bytes)
    ensures |b| == width
  {
    if width == 0 then [] else BigEndian(n / 256, width - 1) + [n % 256]
  }

  function FromBigEndian(b: Bytes): nat {
    if b == [] then 0 else FromBigEndian(b[..|b| - 1]) * 256 + b[|b| - 1]
  }

  lemma {:induction false} BigEndianReadsBack(n: nat, width: nat)
    requires n < Pow256(width)
    ensures FromBigEndian(BigEndian(n, width)) == n
  {
    if width > 0 {
      BigEndianReadsBack(n / 256, width - 1);
      var b := BigEndian(n, width);
      assert b[..|b| - 1] == BigEndian(n / 256, width - 1);
    }
  }

  /** The first byte counts most. */
  lemma {:induction false} FromBigEndianFirst(b: Bytes)
    requires b != []
    ensures FromBigEndian(b) == b[0] * Pow256(|b| - 1) + FromBigEndian(b[1..])
    ensures FromBigEndian(b[1..]) < Pow256(|b| - 1)
  {
    if |b| > 1 {
      var n := |b| - 1;
      FromBigEndianFirst(b[..n]);
      assert b[..n][1..] == b[1..][..n - 1] && b[1..][n - 1] == b[n];
    }
  }

  lemma Powers()
    ensures Pow256(2) == 0x1_0000 && Pow256(8) == 0x1_0000_0000_0000_0000
  {
    assert Pow256(4) == 0x1_0000_0000;
  }

  lemma Associate(a: Bytes, b: Bytes, c: Bytes)
    ensures (a + b) + c == a + (b + c)
  {
  }
}
