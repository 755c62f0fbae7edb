/** Byte strings, optional values and the little-endian integer encoding used by
    the freshness codec and the quote parser. */
module Bytes {

  type byte = x: int | 0 <= x < 256

  type Bytes = seq<byte>

  type u64 = x: int | 0 <= x < 0x1_0000_0000_0000_0000

  datatype Option<+T> = None | Some(value: T)

  /** `n` zero bytes. */
  function Zeros(n: nat): (r: Bytes)
    ensures |r| == n
  {
    seq(n, _ => 0)
  }

  /** 256 to the power `n`: how many values `n` bytes can hold. */
  function Pow256(n: nat): (r: nat)
    ensures r > 0
  {
    if n == 0 then 1 else 256 * Pow256(n - 1)
  }

  /** The `n` low-order bytes of `v`, least significant first. */
  function LeEncode(v: nat, n: nat): (r: Bytes)
    ensures |r| == n
  {
    if n == 0 then [] else [v % 256] + LeEncode(v / 256, n - 1)
  }

  function LeDecode(b: Bytes): nat
  {
    if b == [] then 0 else b[0] + 256 * LeDecode(b[1..])
  }

  lemma {:induction false} LeDecodeBound(b: Bytes)
    ensures LeDecode(b) < Pow256(|b|)
  {
    if b != [] {
      LeDecodeBound(b[1..]);
    }
  }

  lemma {:induction false} LeDecodeEncode(v: nat, n: nat)
    requires v < Pow256(n)
    ensures LeDecode(LeEncode(v, n)) == v
  {
    if n > 0 {
      assert LeEncode(v, n)[1..] == LeEncode(v / 256, n - 1);
      LeDecodeEncode(v / 256, n - 1);
    }
  }

  lemma {:induction false} LeEncodeDecode(b: Bytes)
    ensures LeEncode(LeDecode(b), |b|) == b
  {
    if b != [] {
      LeEncodeDecode(b[1..]);
      assert LeDecode(b) % 256 == b[0] && LeDecode(b) / 256 == LeDecode(b[1..]);
      assert b == [b[0]] + b[1..];
    }
  }

  /** Eight bytes hold exactly the 64-bit range. */
  lemma Pow256Widths()
    ensures Pow256(2) == 0x1_0000
    ensures Pow256(4) == 0x1_0000_0000
    ensures Pow256(8) == 0x1_0000_0000_0000_0000
  {
    assert Pow256(1) == 256;
    assert Pow256(3) == 256 * Pow256(2);
    assert Pow256(5) == 256 * Pow256(4);
    assert Pow256(6) == 256 * Pow256(5);
    assert Pow256(7) == 256 * Pow256(6);
  }

  /** Two 64-bit values with the same eight bytes are the same value. */
  lemma LeEncodeU64Injective(v: u64, w: u64)
    requires LeEncode(v, 8) == LeEncode(w, 8)
    ensures v == w
  {
    Pow256Widths();
    LeDecodeEncode(v, 8);
    LeDecodeEncode(w, 8);
  }

  /** Adjacent slices join. */
  lemma JoinSlices<T>(s: seq<T>, a: nat, b: nat, c: nat)
    requires a <= b <= c <= |s|
    ensures s[a..b] + s[b..c] == s[a..c]
  {
  }
}
