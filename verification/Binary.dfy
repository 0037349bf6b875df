/** Bytes, fixed-width integers and their little-endian form. */
module Binary {

  newtype byte = x: int | 0 <= x < 256

  type Bytes = seq<byte>

  const U64_MAX: nat := 0xFFFF_FFFF_FFFF_FFFF

  type u16 = n: nat | n < 0x1_0000
  type u32 = n: nat | n < 0x1_0000_0000
  type u64 = n: nat | n <= U64_MAX

  function Zeros(n: nat): (b: Bytes)
    ensures |b| == n
  {
    seq(n, i => 0)
  }

  lemma JoinSlices(b: Bytes, i: nat, j: nat)
    requires i <= j <= |b|
    ensures b[..i] + b[i..j] == b[..j]
  {
  }

  function Pow256(w: nat): (p: nat)
    ensures p > 0
  {
    if w == 0 then 1 else 256 * Pow256(w - 1)
  }

  lemma Pow256Values()
    ensures Pow256(2) == 0x1_0000
    ensures Pow256(4) == 0x1_0000_0000
    ensures Pow256(8) == U64_MAX + 1
  {
  }

  /** The `w` low-order bytes of `n`, least significant first. */
  function Le(n: nat, w: nat): (b: Bytes)
    ensures |b| == w
  {
    if w == 0 then [] else [(n % 256) as byte] + Le(n / 256, w - 1)
  }

  function FromLe(b: Bytes): nat {
    if b == [] then 0 else b[0] as nat + 256 * FromLe(b[1..])
  }

  lemma {:induction false} FromLeBound(b: Bytes)
    ensures FromLe(b) < Pow256(|b|)
  {
    if b != [] {
      FromLeBound(b[1..]);
    }
  }

  lemma {:induction false} DecodeLe(n: nat, w: nat)
    requires n < Pow256(w)
    ensures FromLe(Le(n, w)) == n
  {
    if w > 0 {
      assert Le(n, w)[1..] == Le(n / 256, w - 1);
      DecodeLe(n / 256, w - 1);
    }
  }

  lemma SplitByte(low: nat, high: nat)
    requires low < 256
    ensures (low + 256 * high) % 256 == low && (low + 256 * high) / 256 == high
  {
  }

  lemma {:induction false} EncodeLe(b: Bytes)
    ensures Le(FromLe(b), |b|) == b
  {
    if b != [] {
      EncodeLe(b[1..]);
      SplitByte(b[0] as nat, FromLe(b[1..]));
      assert Le(FromLe(b), |b|) == [b[0]] + Le(FromLe(b[1..]), |b| - 1);
      assert b == [b[0]] + b[1..];
    }
  }

  lemma FromLeU64(b: Bytes)
    requires |b| == 8
    ensures FromLe(b) <= U64_MAX
  {
    FromLeBound(b);
    Pow256Values();
  }

  lemma DecodeLeU16(n: u16)
    ensures FromLe(Le(n, 2)) == n
  {
    Pow256Values();
    DecodeLe(n, 2);
  }

  lemma DecodeLeU32(n: u32)
    ensures FromLe(Le(n, 4)) == n
  {
    Pow256Values();
    DecodeLe(n, 4);
  }

  lemma DecodeLeU64(n: u64)
    ensures FromLe(Le(n, 8)) == n
  {
    Pow256Values();
    DecodeLe(n, 8);
  }
}
