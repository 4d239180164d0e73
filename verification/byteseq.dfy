/** Bytes, fixed-width integer truncation, little-endian fields and C strings. */
module ByteSeq {

  newtype Byte = x: int | 0 <= x < 256
  type Bytes = seq<Byte>

  const U32Modulus: nat := 0x1_0000_0000
  const U64Modulus: nat := 0x1_0000_0000_0000_0000

  /** The C conversion `(unsigned int) x` of a non-negative value. */
  function U32(x: nat): (r: nat)
    ensures r < U32Modulus && r <= x
    ensures x < U32Modulus ==> r == x
    ensures (x - r) % U32Modulus == 0
  {
    x % U32Modulus
  }

  function Zeros(n: nat): (r: Bytes)
    ensures |r| == n
    ensures forall i :: 0 <= i < n ==> r[i] == 0
  {
    seq(n, _ => 0)
  }

  function Pow256(n: nat): (r: nat)
    ensures r > 0
  {
    if n == 0 then 1 else 256 * Pow256(n - 1)
  }

  /** The `n` low-order bytes of `x`, least significant first (x86 byte order). */
  function EncodeLE(x: nat, n: nat): (r: Bytes)
    ensures |r| == n
    decreases n
  {
    if n == 0 then [] else [(x % 256) as Byte] + EncodeLE(x / 256, n - 1)
  }

  /** The unsigned integer whose little-endian bytes are `b`. */
  function DecodeLE(b: Bytes): (r: nat)
    ensures r < Pow256(|b|)
  {
    if |b| == 0 then 0
    else
      var rest := DecodeLE(b[1..]);
      assert rest <= Pow256(|b| - 1) - 1;
      assert 256 * rest <= 256 * Pow256(|b| - 1) - 256;
      b[0] as nat + 256 * rest
  }

  lemma {:induction false} DecodeEncodeLE(x: nat, n: nat)
    requires x < Pow256(n)
    ensures DecodeLE(EncodeLE(x, n)) == x
    decreases n
  {
    if n > 0 {
      var e := EncodeLE(x, n);
      var q, m := x / 256, x % 256;
      assert e[1..] == EncodeLE(q, n - 1);
      assert x == 256 * q + m;
      QuotientBound(q, m, Pow256(n - 1));
      DecodeEncodeLE(q, n - 1);
      assert e[0] as nat == m;
      assert DecodeLE(e) == e[0] as nat + 256 * DecodeLE(e[1..]);
    }
  }

  lemma QuotientBound(q: nat, m: nat, p: nat)
    requires 256 * q + m < 256 * p
    ensures q < p
  {
  }

  lemma Pow256Values()
    ensures Pow256(4) == U32Modulus
    ensures Pow256(8) == U64Modulus
  {
    assert Pow256(4) == 256 * 256 * 256 * 256 by {
      assert Pow256(1) == 256;
      assert Pow256(2) == 256 * 256;
      assert Pow256(3) == 256 * 256 * 256;
    }
    assert Pow256(8) == Pow256(4) * Pow256(4) by {
      assert Pow256(5) == 256 * Pow256(4);
      assert Pow256(6) == 256 * Pow256(5);
      assert Pow256(7) == 256 * Pow256(6);
    }
  }

  /** A 32-bit field round-trips through its four bytes. */
  lemma DecodeEncodeU32(x: nat)
    requires x < U32Modulus
    ensures DecodeLE(EncodeLE(x, 4)) == x
  {
    Pow256Values();
    DecodeEncodeLE(x, 4);
  }

  /** A 64-bit field round-trips through its eight bytes. */
  lemma DecodeEncodeU64(x: nat)
    requires x < U64Modulus
    ensures DecodeLE(EncodeLE(x, 8)) == x
  {
    Pow256Values();
    DecodeEncodeLE(x, 8);
  }

  /** The C string held in a fixed buffer: the bytes before the first NUL, or the
      whole buffer when it holds no NUL. */
  function CString(buf: Bytes): (r: Bytes)
    ensures r <= buf
    ensures forall i :: 0 <= i < |r| ==> r[i] != 0
    ensures |r| < |buf| ==> buf[|r|] == 0
  {
    if |buf| == 0 || buf[0] == 0 then [] else [buf[0]] + CString(buf[1..])
  }
}
